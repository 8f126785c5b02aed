/** Worked examples of `clean_name` on one name with an inner `_C`. */
module TitleExamples {
  import opened Text
  import opened Titles

  /** The three steps of the cleaner, spelled out for one name. */
  lemma CleanNameUnfold(name: string)
    ensures EndsWith(name, "_C") ==>
              CleanName(name) == Title(ReplaceAll(ReplaceAll(name, "_C", " (C)"), "_", " "))
    ensures !EndsWith(name, "_C") ==> CleanName(name) == Title(ReplaceAll(name, "_", " "))
  {
  }

  /** A name with an inner `_C`: both occurrences are rewritten. The name is a
      parameter fixed by the precondition: with the literal written inside
      `ReplaceAll`, the verifier unfolds the recursion on the constant and the
      proof becomes several times more expensive. */
  lemma CelsiusRewriteExample(a: string)
    requires a == "Max_Cost_C"
    ensures ReplaceAll(a, "_C", " (C)") == "Max (C)ost (C)"
  {
    assert a == "Max" + ("_C" + ("ost" + "_C"));
    ReplaceTwo("Max", "ost", "_C", " (C)");
  }

  /** The rewritten example has no underscore left for the second step (the text
      is a parameter for the same reason as above). */
  lemma SpacedExample(c: string)
    requires c == "Max (C)ost (C)"
    ensures ReplaceAll(c, "_", " ") == c
  {
    ReplaceCharPointwise(c, '_', ' ');
  }

  /** Title-casing the rewritten example: the `o` after `)` is a word start. */
  lemma TitleExample()
    ensures Title("Max (C)ost (C)") == "Max (C)Ost (C)"
  {
    assert IsTitleOf("Max (C)Ost (C)", "Max (C)ost (C)");
    TitleCharacterized("Max (C)ost (C)", "Max (C)Ost (C)");
  }

  /** With the `_C` ending, the rewrite reaches every `_C`, not just the last one. */
  lemma CleanNameRewritesInnerCelsius()
    ensures CleanName("Max_Cost_C") == "Max (C)Ost (C)"
  {
    assert EndsWith("Max_Cost_C", "_C");
    CleanNameUnfold("Max_Cost_C");
    CelsiusRewriteExample("Max_Cost_C");
    SpacedExample("Max (C)ost (C)");
    TitleExample();
  }

  /** Without the `_C` ending, a `_C` inside the name is left for the underscore rule. */
  lemma CleanNameKeepsInnerCelsius()
    ensures CleanName("Max_Cost") == "Max Cost"
  {
    assert !EndsWith("Max_Cost", "_C");
    CleanNameUnfold("Max_Cost");
    SpacedPlainExample("Max_Cost");
    TitlePlainExample();
  }

  /** The underscore of the plain example becomes a space (the name is a
      parameter for the same reason as above). */
  lemma SpacedPlainExample(b: string)
    requires b == "Max_Cost"
    ensures ReplaceAll(b, "_", " ") == "Max Cost"
  {
    assert b == "Max" + ("_" + "Cost");
    ReplaceOne("Max", "Cost", "_", " ");
  }

  /** The plain example is already title-cased. */
  lemma TitlePlainExample()
    ensures Title("Max Cost") == "Max Cost"
  {
    assert IsTitleOf("Max Cost", "Max Cost");
    TitleCharacterized("Max Cost", "Max Cost");
  }
}
