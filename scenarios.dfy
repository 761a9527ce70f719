/** Concrete rows of `csv2model`, worked through the model: the example
    `{kcat}*[S1]` → `0.5*A` and the quirks of the resolver's matching rules. */
module Scenarios {
  import opened Text
  import opened Tokenizer
  import opened Errors
  import opened Resolver

  /** `[S1]` becomes the first substrate; the parameter token is left for
      its own pass. */
  lemma SubstrateToken()
    ensures SpeciesPass(Substrate, "{kcat}*[S1]", ["A"]) == Ok("{kcat}*A")
  {
    assert Show(1) == "1";
    assert IsHeadAt(Substrate, "S", 0);
    var pre := "{kcat}*";
    assert forall k :: 0 <= k < |pre| ==> pre[k] != 's' && pre[k] != 'S';
    assert !Mentions(Substrate, pre);
    assert !Mentions(Substrate, "");
    SpeciesPassOneToken(Substrate, pre, "S", 1, "", ["A"]);
    assert pre + "[" + "S" + Show(1) + "]" + "" == "{kcat}*[S1]";
    assert pre + "A" + "" == "{kcat}*A";
  }

  /** `[S0]` is Python's index -1: the last substrate. */
  lemma ZeroIndexIsLast()
    ensures SpeciesPass(Substrate, "[S0]", ["A", "B"]) == Ok("B")
  {
    assert Show(0) == "0";
    assert IsHeadAt(Substrate, "S", 0);
    assert !Mentions(Substrate, "");
    SpeciesPassOneToken(Substrate, "", "S", 0, "", ["A", "B"]);
    assert "" + "[" + "S" + Show(0) + "]" + "" == "[S0]";
    assert "" + "B" + "" == "B";
  }

  /** An index past the end of the species list is an IndexError. */
  lemma IndexPastEnd()
    ensures SpeciesPass(Product, "[P3]", ["A", "B"]) == Err(IndexOutOfRange(2))
  {
    assert Show(3) == "3";
    assert IsHeadAt(Product, "P", 0);
    assert !Mentions(Product, "");
    SpeciesPassOneToken(Product, "", "P", 3, "", ["A", "B"]);
    assert "" + "[" + "P" + Show(3) + "]" + "" == "[P3]";
  }

  /** The product pass reads any `P` as a token, even in plain text. */
  lemma ProductLetterInName(names: seq<string>)
    ensures SpeciesPass(Product, "ATP", names) == Err(NotAnInteger("TP"))
  {
    NoOpenNoToken(Product, "ATP");
    SplitOfPlain(Product, "ATP");
    assert IsHeadAt(Product, "ATP", 2);
    assert Drop("ATP", 1) == "TP";
    SubstituteAllSnoc(Product, [], "ATP", names);
    assert [] + ["ATP"] == ["ATP"];
  }

  /** A species name inserted by the substrate pass is re-read by the
      product pass: the `P` in `ATP` sends `int("TP")` into a ValueError. */
  lemma SpeciesNameReread(params: map<string, string>)
    ensures ResolveRow(Reaction("ATP", "ADP", "L", "", "k_1"), map["L" := "[S1]"], params)
            == Err(NotAnInteger("TP"))
  {
    SplitOnAbsent("ATP", ' ');
    assert Show(1) == "1";
    assert IsHeadAt(Substrate, "S", 0);
    assert !Mentions(Substrate, "");
    SpeciesPassOneToken(Substrate, "", "S", 1, "", ["ATP"]);
    assert "" + "[" + "S" + Show(1) + "]" + "" == "[S1]";
    assert "" + "ATP" + "" == "ATP";
    ProductLetterInName(SplitOn("ADP", ' '));
  }

  /** The type of the ref `kcat_enz1` is `kcat`. */
  lemma KcatType()
    ensures RefType("kcat_enz1") == "kcat"
  {
    SplitOnPrefix("kcat", '_', "enz1");
    assert "kcat" + ['_'] + "enz1" == "kcat_enz1";
  }

  /** A ref whose type starts the segment contributes its value. */
  lemma KcatSegments()
    ensures ParamSegment("kcat", ["kcat_enz1"], map["kcat_enz1" := "0.5"]) == Ok("0.5")
    ensures ParamSegment("kcat*2", ["kcat_enz1"], map["kcat_enz1" := "0.5"]) == Ok("0.5")
    ensures ParamSegment("*A", ["kcat_enz1"], map["kcat_enz1" := "0.5"]) == Ok("*A")
  {
    KcatType();
    assert ["kcat_enz1"] == [] + ["kcat_enz1"];
    MatchingSnoc("kcat", [], "kcat_enz1");
    MatchingSnoc("kcat*2", [], "kcat_enz1");
    MatchingSnoc("*A", [], "kcat_enz1");
    LookupAllSnoc([], "kcat_enz1", map["kcat_enz1" := "0.5"]);
    assert "" + "0.5" == "0.5";
  }

  /** The parameter pass over a leading token followed by text. */
  lemma TokenBetweenPlain(b: string, c: string, refs: seq<string>, table: map<string, string>, x: string, y: string)
    requires b != "" && c != ""
    requires ParamSegment(b, refs, table) == Ok(x) && ParamSegment(c, refs, table) == Ok(y)
    ensures SubstituteParams(["", b, c], refs, table) == Ok(x + y)
  {
    SubstituteParamsSnoc([], "", refs, table);
    SubstituteParamsSnoc([""], b, refs, table);
    SubstituteParamsSnoc(["", b], c, refs, table);
    assert [] + [""] == [""] && [""] + [b] == ["", b] && ["", b] + [c] == ["", b, c];
    assert "" + x == x;
  }

  /** `{kcat}*A` splits around its one parameter token. */
  lemma KcatSplit()
    ensures Split(Parameter, "{kcat}*A") == ["", "kcat", "*A"]
  {
    NoOpenNoToken(Parameter, "");
    NoOpenNoToken(Parameter, "*A");
    assert IsBody(Parameter, "kcat");
    SplitOfOneToken(Parameter, "", "kcat", "*A");
    assert "" + [Open(Parameter)] + "kcat" + [Close(Parameter)] + "*A" == "{kcat}*A";
  }

  /** `{kcat}` takes the value of the ref `kcat_enz1`. */
  lemma ParameterToken()
    ensures ParameterPass("{kcat}*A", ["kcat_enz1"], map["kcat_enz1" := "0.5"]) == Ok("0.5*A")
  {
    KcatSplit();
    KcatSegments();
    TokenBetweenPlain("kcat", "*A", ["kcat_enz1"], map["kcat_enz1" := "0.5"], "0.5", "*A");
    assert "0.5" + "*A" == "0.5*A";
  }

  /** Matching is on prefixes of whole segments, literal text included: the
      plain text `kcat*2` starts with the type `kcat` and is replaced
      wholesale by the value. */
  lemma LiteralTextMatched()
    ensures ParameterPass("kcat*2", ["kcat_enz1"], map["kcat_enz1" := "0.5"]) == Ok("0.5")
  {
    NoOpenNoToken(Parameter, "kcat*2");
    SplitOfPlain(Parameter, "kcat*2");
    KcatSegments();
    SubstituteParamsSnoc([], "kcat*2", ["kcat_enz1"], map["kcat_enz1" := "0.5"]);
    assert [] + ["kcat*2"] == ["kcat*2"];
    assert "" + "0.5" == "0.5";
  }

  /** Every matching ref contributes: two refs of type `k` put both values
      side by side, whatever the values (`2.0` and `3.0` give `2.03.0`). */
  lemma SameTypeConcatenated(first: string, second: string)
    ensures ParamSegment("k", ["k_1", "k_2"], map["k_1" := first, "k_2" := second]) == Ok(first + second)
  {
    SplitOnPrefix("k", '_', "1");
    SplitOnPrefix("k", '_', "2");
    assert "k" + ['_'] + "1" == "k_1" && "k" + ['_'] + "2" == "k_2";
    var table := map["k_1" := first, "k_2" := second];
    MatchingSnoc("k", [], "k_1");
    MatchingSnoc("k", ["k_1"], "k_2");
    assert [] + ["k_1"] == ["k_1"] && ["k_1"] + ["k_2"] == ["k_1", "k_2"];
    LookupAllSnoc([], "k_1", table);
    assert "" + first == first;
    LookupAllSnoc(["k_1"], "k_2", table);
  }

  /** `{kcat}*A` names no product and no modifier. */
  lemma PlainAfterSubstrates()
    ensures !Mentions(Product, "{kcat}*A") && !Mentions(Modifier, "{kcat}*A")
  {
    var law := "{kcat}*A";
    assert forall k :: 0 <= k < |law| ==> law[k] != 'p' && law[k] != 'P' && law[k] != 'm' && law[k] != 'M';
  }

  /** A row whose three species passes succeed prints its parameter pass. */
  lemma RowThroughPasses(rxn: Reaction, laws: map<string, string>, params: map<string, string>,
                         law1: string, law2: string, law3: string)
    requires rxn.kineticLaw in laws
    requires SpeciesPass(Substrate, laws[rxn.kineticLaw], SplitOn(rxn.substrates, ' ')) == Ok(law1)
    requires SpeciesPass(Product, law1, SplitOn(rxn.products, ' ')) == Ok(law2)
    requires SpeciesPass(Modifier, law2, SplitOn(rxn.modifiers, ' ')) == Ok(law3)
    ensures ResolveRow(rxn, laws, params) == ParameterPass(law3, SplitOn(rxn.parameters, ' '), params)
  {
  }

  /** The worked example: substrate `A`, rate law `{kcat}*[S1]`, parameter
      `kcat_enz1` = 0.5 prints `0.5*A`. */
  lemma KcatRow()
    ensures ResolveRow(Reaction("A", "B", "mm", "", "kcat_enz1"), map["mm" := "{kcat}*[S1]"],
                       map["kcat_enz1" := "0.5"]) == Ok("0.5*A")
  {
    var laws := map["mm" := "{kcat}*[S1]"];
    var params := map["kcat_enz1" := "0.5"];
    var rxn := Reaction("A", "B", "mm", "", "kcat_enz1");
    var law := "{kcat}*A";
    assert SpeciesPass(Substrate, laws[rxn.kineticLaw], SplitOn(rxn.substrates, ' ')) == Ok(law) by {
      SplitOnAbsent("A", ' ');
      SubstrateToken();
    }
    assert SpeciesPass(Product, law, SplitOn(rxn.products, ' ')) == Ok(law) by {
      PlainAfterSubstrates();
      SpeciesPassUnmentioned(Product, law, SplitOn(rxn.products, ' '));
    }
    assert SpeciesPass(Modifier, law, SplitOn(rxn.modifiers, ' ')) == Ok(law) by {
      PlainAfterSubstrates();
      SpeciesPassUnmentioned(Modifier, law, SplitOn(rxn.modifiers, ' '));
    }
    assert ParameterPass(law, SplitOn(rxn.parameters, ' '), params) == Ok("0.5*A") by {
      SplitOnAbsent("kcat_enz1", ' ');
      ParameterToken();
    }
    RowThroughPasses(rxn, laws, params, law, law, law);
  }
}
