/** The whole run of `csv2model reactions parameters ratelaws`: read the
    rate-law table, then the parameter table, then resolve and print one
    rate law per reaction row until the rows end or an exception stops the
    program. Files are given as their CSV rows. */
module Csv2Model {
  import opened Text
  import opened Errors
  import opened Tables
  import opened Resolver

  /** The five cells of a reaction row; a shorter row raises IndexError. */
  function ReactionOf(line: seq<string>): (r: Result<Reaction>)
    ensures r.Ok? <==> |line| >= 5
    ensures r.Ok? ==> [r.value.substrates, r.value.products, r.value.kineticLaw,
                       r.value.modifiers, r.value.parameters] == line[..5]
  {
    if |line| < 5 then Err(ShortRow(|line|))
    else Ok(Reaction(line[0], line[1], line[2], line[3], line[4]))
  }

  function ResolveLine(line: seq<string>, laws: map<string, string>, params: map<string, string>): Result<string> {
    match ReactionOf(line)
    case Err(e) => Err(e)
    case Ok(rxn) => ResolveRow(rxn, laws, params)
  }

  /** What a run leaves behind: the lines printed, in order, and the
      exception that stopped it, if any. */
  datatype Outcome = Outcome(printed: seq<string>, failure: Option<Error>)

  /** Printing the rows' rate laws in order, stopping at the first failing
      row, whose exception ends the run. */
  function Emit(results: seq<Result<string>>): Outcome
    decreases |results|
  {
    if results == [] then Outcome([], None)
    else
      var done := Emit(results[..|results| - 1]);
      if done.failure.Some? then done
      else match results[|results| - 1]
        case Err(e) => Outcome(done.printed, Some(e))
        case Ok(law) => Outcome(done.printed + [law], None)
  }

  /** What is printed is exactly the laws of the rows before the first
      failing row, in order; the failure, if any, is that row's error. */
  lemma {:induction false} EmitMeaning(results: seq<Result<string>>)
    ensures var o := Emit(results);
      && |o.printed| <= |results|
      && (forall i :: 0 <= i < |o.printed| ==> results[i] == Ok(o.printed[i]))
      && (o.failure.None? ==> |o.printed| == |results|)
      && (o.failure.Some? ==> |o.printed| < |results| && results[|o.printed|] == Err(o.failure.value))
    decreases |results|
  {
    if results != [] {
      var front := results[..|results| - 1];
      EmitMeaning(front);
      assert forall i :: 0 <= i < |front| ==> front[i] == results[i];
    }
  }

  /** Each row resolved on its own. */
  function Results(lines: seq<seq<string>>, laws: map<string, string>, params: map<string, string>): (r: seq<Result<string>>)
    ensures |r| == |lines|
    decreases |lines|
  {
    if lines == [] then []
    else Results(lines[..|lines| - 1], laws, params) + [ResolveLine(lines[|lines| - 1], laws, params)]
  }

  /** The reaction loop: the rows' results printed in order. */
  function ResolveAll(lines: seq<seq<string>>, laws: map<string, string>, params: map<string, string>): Outcome {
    Emit(Results(lines, laws, params))
  }

  /** The program: the rate-law file is read first, then the parameter file,
      then the reaction file; each skips its header row. */
  function RunModel(lawFile: seq<seq<string>>, paramFile: seq<seq<string>>, reactionFile: seq<seq<string>>): Outcome {
    match ReadTable(lawFile)
    case Err(e) => Outcome([], Some(e))
    case Ok(laws) =>
      match ReadTable(paramFile)
      case Err(e) => Outcome([], Some(e))
      case Ok(params) =>
        if reactionFile == [] then Outcome([], Some(MissingHeader))
        else ResolveAll(reactionFile[1..], laws, params)
  }

  lemma EmitSnoc(results: seq<Result<string>>, last: Result<string>)
    ensures Emit(results + [last]) ==
      var done := Emit(results);
      if done.failure.Some? then done
      else match last
        case Err(e) => Outcome(done.printed, Some(e))
        case Ok(law) => Outcome(done.printed + [law], None)
  {
    assert (results + [last])[..|results|] == results;
  }

  lemma ResultsSnoc(lines: seq<seq<string>>, line: seq<string>, laws: map<string, string>, params: map<string, string>)
    ensures Results(lines + [line], laws, params) == Results(lines, laws, params) + [ResolveLine(line, laws, params)]
  {
    assert (lines + [line])[..|lines|] == lines;
  }

  lemma ResolveAllSnoc(lines: seq<seq<string>>, line: seq<string>, laws: map<string, string>, params: map<string, string>)
    ensures ResolveAll(lines + [line], laws, params) ==
      var done := ResolveAll(lines, laws, params);
      if done.failure.Some? then done
      else match ResolveLine(line, laws, params)
        case Err(e) => Outcome(done.printed, Some(e))
        case Ok(law) => Outcome(done.printed + [law], None)
  {
    assert (lines + [line])[..|lines|] == lines;
    EmitSnoc(Results(lines, laws, params), ResolveLine(line, laws, params));
  }

  /** After a failure nothing more is printed and the failure stands. */
  lemma {:induction false} EmitSticky(a: seq<Result<string>>, b: seq<Result<string>>)
    requires Emit(a).failure.Some?
    ensures Emit(a + b) == Emit(a)
    decreases |b|
  {
    if b == [] {
      assert a + b == a;
    } else {
      var front := b[..|b| - 1];
      var last := b[|b| - 1];
      EmitSticky(a, front);
      assert a + b == (a + front) + [last];
      EmitSnoc(a + front, last);
    }
  }

  /** When the first rows get through, the later rows are printed after
      them as if alone. */
  lemma {:induction false} EmitAfterSuccess(a: seq<Result<string>>, b: seq<Result<string>>)
    requires Emit(a).failure.None?
    ensures Emit(a + b) == Outcome(Emit(a).printed + Emit(b).printed, Emit(b).failure)
    decreases |b|
  {
    var first := Emit(a).printed;
    if b == [] {
      assert a + b == a;
      assert first + [] == first;
    } else {
      var front := b[..|b| - 1];
      var last := b[|b| - 1];
      EmitAfterSuccess(a, front);
      AfterSuccessStep(first, a + front, front, last);
      assert a + b == (a + front) + [last];
      assert b == front + [last];
    }
  }

  /** One row of `EmitAfterSuccess`'s induction: a run that so far printed
      `first` and then what `front` alone prints stays so after one more
      row. */
  lemma AfterSuccessStep(first: seq<string>, x: seq<Result<string>>, front: seq<Result<string>>, last: Result<string>)
    requires Emit(x) == Outcome(first + Emit(front).printed, Emit(front).failure)
    ensures Emit(x + [last]) == Outcome(first + Emit(front + [last]).printed, Emit(front + [last]).failure)
  {
    EmitSnoc(x, last);
    EmitSnoc(front, last);
    var mid := Emit(front);
    if mid.failure.None? && last.Ok? {
      assert first + mid.printed + [last.value] == first + (mid.printed + [last.value]);
    }
  }


  /** Rows are printed independently: the run over `a + b` is the run over
      `a` followed, if it got through, by the run over `b`. In particular
      the rows after a failing row are never looked at. */
  lemma EmitAppend(a: seq<Result<string>>, b: seq<Result<string>>)
    ensures Emit(a + b) ==
      var first := Emit(a);
      if first.failure.Some? then first
      else var second := Emit(b);
        Outcome(first.printed + second.printed, second.failure)
  {
    if Emit(a).failure.Some? {
      EmitSticky(a, b);
    } else {
      EmitAfterSuccess(a, b);
    }
  }

  lemma {:induction false} ResultsAppend(a: seq<seq<string>>, b: seq<seq<string>>, laws: map<string, string>, params: map<string, string>)
    ensures Results(a + b, laws, params) == Results(a, laws, params) + Results(b, laws, params)
    decreases |b|
  {
    if b == [] {
      assert a + b == a;
    } else {
      var front := b[..|b| - 1];
      ResultsAppend(a, front, laws, params);
      assert (a + b)[..|a + b| - 1] == a + front;
    }
  }

  /** The same for whole reaction files: rows after a failing row are
      ignored, and rows before it are printed as if alone. */
  lemma ResolveAllAppend(a: seq<seq<string>>, b: seq<seq<string>>, laws: map<string, string>, params: map<string, string>)
    ensures ResolveAll(a + b, laws, params) ==
      var first := ResolveAll(a, laws, params);
      if first.failure.Some? then first
      else var second := ResolveAll(b, laws, params);
        Outcome(first.printed + second.printed, second.failure)
  {
    ResultsAppend(a, b, laws, params);
    EmitAppend(Results(a, laws, params), Results(b, laws, params));
  }

  /** One pass of the reaction loop: read the row's cells and resolve its law. */
  method ResolveLineOf(line: seq<string>, laws: map<string, string>, params: map<string, string>) returns (r: Result<string>)
    ensures r == ResolveLine(line, laws, params)
  {
    if |line| < 5 {
      return Err(ShortRow(|line|));
    }
    var rxn := Reaction(line[0], line[1], line[2], line[3], line[4]);
    r := ResolveReaction(rxn, laws, params);
  }

  /** A failing row after rows that got through ends the run with its error. */
  lemma EmitStopsAt(front: seq<Result<string>>, failed: Result<string>, rest: seq<Result<string>>)
    requires Emit(front).failure.None? && failed.Err?
    ensures Emit(front + [failed] + rest) == Outcome(Emit(front).printed, Some(failed.error))
  {
    EmitSnoc(front, failed);
    EmitSticky(front + [failed], rest);
  }

  /** The first failing row ends the reaction loop with its exception. */
  lemma ResolveAllStopsAt(lines: seq<seq<string>>, k: nat, laws: map<string, string>, params: map<string, string>)
    requires k < |lines| && ResolveAll(lines[..k], laws, params).failure.None?
    requires ResolveLine(lines[k], laws, params).Err?
    ensures ResolveAll(lines, laws, params) ==
      Outcome(ResolveAll(lines[..k], laws, params).printed, Some(ResolveLine(lines[k], laws, params).error))
  {
    assert lines == lines[..k] + [lines[k]] + lines[k + 1..];
    ResultsAround(lines[..k], lines[k], lines[k + 1..], laws, params);
    EmitStopsAt(Results(lines[..k], laws, params), ResolveLine(lines[k], laws, params), Results(lines[k + 1..], laws, params));
  }

  /** The results of a file are those before a row, the row's own, and
      those after it. */
  lemma ResultsAround(before: seq<seq<string>>, line: seq<string>, after: seq<seq<string>>,
                      laws: map<string, string>, params: map<string, string>)
    ensures Results(before + [line] + after, laws, params) ==
      Results(before, laws, params) + [ResolveLine(line, laws, params)] + Results(after, laws, params)
  {
    ResultsSnoc(before, line, laws, params);
    ResultsAppend(before + [line], after, laws, params);
  }

  /** The result at position `k` is row `k` resolved alone: rows do not
      see each other. */
  lemma {:induction false} ResultsAt(lines: seq<seq<string>>, k: nat, laws: map<string, string>, params: map<string, string>)
    requires k < |lines|
    ensures Results(lines, laws, params)[k] == ResolveLine(lines[k], laws, params)
    decreases |lines|
  {
    if k < |lines| - 1 {
      ResultsAt(lines[..|lines| - 1], k, laws, params);
    }
  }

  /** A row that resolves adds its law to what is printed. */
  lemma ResolveAllStep(lines: seq<seq<string>>, k: nat, laws: map<string, string>, params: map<string, string>)
    requires k < |lines| && ResolveAll(lines[..k], laws, params).failure.None?
    requires ResolveLine(lines[k], laws, params).Ok?
    ensures ResolveAll(lines[..k + 1], laws, params) ==
      Outcome(ResolveAll(lines[..k], laws, params).printed + [ResolveLine(lines[k], laws, params).value], None)
  {
    assert lines[..k + 1] == lines[..k] + [lines[k]];
    ResolveAllSnoc(lines[..k], lines[k], laws, params);
  }

  /** The reaction loop, printing as it goes (csv2model.py:36-117). */
  method PrintReactions(lines: seq<seq<string>>, laws: map<string, string>, params: map<string, string>)
    returns (printed: seq<string>, failure: Option<Error>)
    ensures Outcome(printed, failure) == ResolveAll(lines, laws, params)
  {
    printed := [];
    assert lines[..0] == [];
    for k := 0 to |lines|
      invariant ResolveAll(lines[..k], laws, params) == Outcome(printed, None)
    {
      var thisLaw := ResolveLineOf(lines[k], laws, params);
      if thisLaw.Err? {
        ResolveAllStopsAt(lines, k, laws, params);
        return printed, Some(thisLaw.error);
      }
      ResolveAllStep(lines, k, laws, params);
      printed := printed + [thisLaw.value];
    }
    assert lines[..|lines|] == lines;
    failure := None;
  }

  /** The program: both tables, then the reactions (csv2model.py:6-117). */
  method RunCsv2Model(lawFile: seq<seq<string>>, paramFile: seq<seq<string>>, reactionFile: seq<seq<string>>)
    returns (printed: seq<string>, failure: Option<Error>)
    ensures Outcome(printed, failure) == RunModel(lawFile, paramFile, reactionFile)
  {
    var ratelaws := BuildTable(lawFile);
    if ratelaws.Err? {
      return [], Some(ratelaws.error);
    }
    var parametersDict := BuildTable(paramFile);
    if parametersDict.Err? {
      return [], Some(parametersDict.error);
    }
    if reactionFile == [] {
      return [], Some(MissingHeader);
    }
    printed, failure := PrintReactions(reactionFile[1..], ratelaws.value, parametersDict.value);
  }
}
