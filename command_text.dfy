/**
 * The feedback text of a command: `String.format` restricted to the one
 * specifier the command messages use, "%1$s", which stands for the rendered
 * module.
 */
module CommandText {

  const Specifier: string := "%1$s"

  /** Every "%1$s" in the template is replaced by the rendered argument. */
  function Format(template: string, shown: string): (r: string)
    decreases |template|
  {
    if |template| < |Specifier| then template
    else if template[0] == '%' && template[..|Specifier|] == Specifier then
      shown + Format(template[|Specifier|..], shown)
    else [template[0]] + Format(template[1..], shown)
  }

  /** A template that does not start with '%' renders its first character unchanged. */
  lemma FormatPlain(t: string, shown: string)
    requires |t| > 0 && t[0] != '%'
    ensures Format(t, shown) == [t[0]] + Format(t[1..], shown)
  {
  }

  /** A template without '%' comes back as it is, whatever the argument. */
  lemma {:induction false} FormatLiteral(template: string, shown: string)
    requires '%' !in template
    ensures Format(template, shown) == template
    decreases |template|
  {
    if template != [] {
      FormatPlain(template, shown);
      PlainTail(template);
      FormatLiteral(template[1..], shown);
      assert [template[0]] + template[1..] == template;
    }
  }

  /** The specifier alone renders as the argument. */
  lemma FormatSpecifierAlone(shown: string)
    ensures Format(Specifier, shown) == shown
  {
    assert Specifier[|Specifier|..] == [];
  }

  /** A template that ends in the specifier renders as its text followed by the argument. */
  lemma {:induction false} FormatTrailing(prefix: string, shown: string)
    requires '%' !in prefix
    ensures Format(prefix + Specifier, shown) == prefix + shown
  {
    if prefix == [] {
      FormatSpecifierAlone(shown);
      assert prefix + Specifier == Specifier;
    } else {
      PlainTail(prefix);
      FormatTrailing(prefix[1..], shown);
      FormatTrailingStep(prefix, shown);
    }
  }

  /** The tail of a text without '%' has none either. */
  lemma PlainTail(prefix: string)
    requires |prefix| > 0 && '%' !in prefix
    ensures '%' !in prefix[1..]
  {
    assert prefix == [prefix[0]] + prefix[1..];
  }

  /** One character more in front of the specifier: the step of FormatTrailing. */
  lemma FormatTrailingStep(prefix: string, shown: string)
    requires |prefix| > 0 && prefix[0] != '%'
    requires Format(prefix[1..] + Specifier, shown) == prefix[1..] + shown
    ensures Format(prefix + Specifier, shown) == prefix + shown
  {
    var t := prefix + Specifier;
    var rest := prefix[1..];
    calc {
      Format(t, shown);
    == { assert t[0] == prefix[0]; FormatPlain(t, shown); }
      [prefix[0]] + Format(t[1..], shown);
    == { assert t[1..] == rest + Specifier; }
      [prefix[0]] + (rest + shown);
    == { assert [prefix[0]] + rest == prefix; }
      prefix + shown;
    }
  }
}
