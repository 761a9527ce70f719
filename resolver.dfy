/** The per-reaction rate-law resolution of `csv2model`: the reaction's
    fields are split on single spaces, its template is looked up by id, and
    four rewriting passes run in order over the template text: substrates
    `[S<n>]`, products `[P<n>]`, modifiers `[MOD<n>]` and parameters
    `{name}`. Every pass re-splits the output of the one before. */
module Resolver {
  import opened Text
  import opened Tokenizer
  import opened Errors

  /** Python's `xs[i]` on a list: negative indices count from the end. */
  function PyIndex(xs: seq<string>, i: int): (r: Result<string>)
    ensures r.Ok? <==> -|xs| <= i < |xs|
    ensures r.Ok? ==> 0 < |xs| && r.value == xs[i % |xs|]
    ensures r.Err? ==> r.error == IndexOutOfRange(i)
  {
    if 0 <= i < |xs| then Ok(xs[i])
    else if -|xs| <= i < 0 then NegativeRemainder(i, |xs|); Ok(xs[|xs| + i])
    else Err(IndexOutOfRange(i))
  }

  /** A negative index no further back than the length is its own
      remainder plus the length: the quotient is -1. */
  lemma NegativeRemainder(i: int, n: int)
    requires -n <= i < 0
    ensures i % n == n + i
  {
    var q := i / n;
    assert i == n * q + i % n && 0 <= i % n < n;
    assert q >= 0 ==> n * q >= 0;
    assert q <= -2 ==> n * q <= -2 * n;
    assert q == -1;
  }

  // ---------------------------------------------------------------------------
  // Substrate, product and modifier passes
  // ---------------------------------------------------------------------------

  /** The `re.search` that classifies a segment: the head letters of the
      pass (`[sS]`, `[pP]`, `[mM][Oo][Dd]`) occur somewhere in it; the
      trailing `\d{0,10}` of the search pattern may match nothing. */
  predicate Mentions(p: Pattern, seg: string) {
    exists k :: 0 <= k < |seg| && k + HeadLen(p) <= |seg| && IsHeadAt(p, seg, k)
  }

  /** One segment of a species pass: a mentioning segment is read as a token
      whose index is the text after its head letters, anything else is
      copied. */
  function ResolveSegment(p: Pattern, seg: string, names: seq<string>): Result<string> {
    if seg != "" && Mentions(p, seg) then
      match ParseInt(Drop(seg, HeadLen(p)))
      case None => Err(NotAnInteger(Drop(seg, HeadLen(p))))
      case Some(k) => PyIndex(names, k - 1)
    else Ok(seg)
  }

  /** The rebuilt text of a species pass over the split segments, or the
      first error met going left to right. */
  function SubstituteAll(p: Pattern, parts: seq<string>, names: seq<string>): Result<string>
    decreases |parts|
  {
    if parts == [] then Ok("")
    else match SubstituteAll(p, parts[..|parts| - 1], names)
      case Err(e) => Err(e)
      case Ok(done) =>
        match ResolveSegment(p, parts[|parts| - 1], names)
        case Err(e) => Err(e)
        case Ok(text) => Ok(done + text)
  }

  /** `SubstituteAll` seen from the front: one more segment at the end. */
  lemma SubstituteAllSnoc(p: Pattern, parts: seq<string>, seg: string, names: seq<string>)
    ensures SubstituteAll(p, parts + [seg], names) ==
      match SubstituteAll(p, parts, names)
      case Err(e) => Err(e)
      case Ok(done) =>
        match ResolveSegment(p, seg, names)
        case Err(e) => Err(e)
        case Ok(text) => Ok(done + text)
  {
    assert (parts + [seg])[..|parts|] == parts;
  }

  function SpeciesPass(p: Pattern, law: string, names: seq<string>): Result<string> {
    SubstituteAll(p, Split(p, law), names)
  }

  /** Once a prefix of the segments fails, the whole pass fails with that error. */
  lemma {:induction false} SubstituteAllSticky(p: Pattern, parts: seq<string>, k: nat, names: seq<string>)
    requires k <= |parts| && SubstituteAll(p, parts[..k], names).Err?
    ensures SubstituteAll(p, parts, names) == SubstituteAll(p, parts[..k], names)
    decreases |parts| - k
  {
    if k < |parts| {
      assert parts[..k + 1][..k] == parts[..k];
      SubstituteAllSticky(p, parts, k + 1, names);
    } else {
      assert parts[..k] == parts;
    }
  }

  /** One step of a species pass: the next piece's own result extends the
      pass over the pieces before it, and its error ends the whole pass. */
  lemma SpeciesStep(p: Pattern, parts: seq<string>, k: nat, names: seq<string>, done: string)
    requires k < |parts| && SubstituteAll(p, parts[..k], names) == Ok(done)
    ensures ResolveSegment(p, parts[k], names).Ok? ==>
      SubstituteAll(p, parts[..k + 1], names) == Ok(done + ResolveSegment(p, parts[k], names).value)
    ensures ResolveSegment(p, parts[k], names).Err? ==>
      SubstituteAll(p, parts, names) == Err(ResolveSegment(p, parts[k], names).error)
  {
    assert parts[..k + 1] == parts[..k] + [parts[k]];
    SubstituteAllSnoc(p, parts[..k], parts[k], names);
    if ResolveSegment(p, parts[k], names).Err? {
      SubstituteAllSticky(p, parts, k + 1, names);
    }
  }

  /** One species pass, as the loop over `re.split` pieces that builds
      `newLaw` (csv2model.py:58-96). */
  method SubstituteSpecies(p: Pattern, law: string, names: seq<string>) returns (r: Result<string>)
    ensures r == SpeciesPass(p, law, names)
  {
    var splitLaw := Split(p, law);
    var newLaw := "";
    for k := 0 to |splitLaw|
      invariant SubstituteAll(p, splitLaw[..k], names) == Ok(newLaw)
    {
      SpeciesStep(p, splitLaw, k, names, newLaw);
      var part := splitLaw[k];
      if part != "" && Mentions(p, part) {
        var index := ParseInt(Drop(part, HeadLen(p)));
        if index.None? {
          r := Err(NotAnInteger(Drop(part, HeadLen(p))));
          return;
        }
        var name := PyIndex(names, index.value - 1);
        if name.Err? {
          r := name;
          return;
        }
        newLaw := newLaw + name.value;
      } else {
        newLaw := newLaw + part;
      }
    }
    assert splitLaw[..|splitLaw|] == splitLaw;
    r := Ok(newLaw);
  }

  /** A segment without the head letters of a pass holds no token of it. */
  lemma UnmentionedHasNoToken(p: Pattern, t: string)
    requires !Mentions(p, t)
    ensures NoToken(p, t)
  {
    forall j: nat, n: nat ensures !TokenAt(p, t, j, n) {
      if j + n + 2 <= |t| && HeadLen(p) <= n {
        assert j + 1 < |t| && j + 1 + HeadLen(p) <= |t|;
        assert !IsHeadAt(p, t, j + 1);
      }
    }
  }

  /** Text that does not mention the head letters of a species pass comes
      through that pass unchanged, whatever the species list. */
  lemma SpeciesPassUnmentioned(p: Pattern, law: string, names: seq<string>)
    requires !Mentions(p, law)
    ensures SpeciesPass(p, law, names) == Ok(law)
  {
    UnmentionedHasNoToken(p, law);
    SplitOfPlain(p, law);
    assert ResolveSegment(p, law, names) == Ok(law);
    SubstituteAllSnoc(p, [], law, names);
    assert [] + [law] == [law] && "" + law == law;
  }

  /** A token body made of head letters and a decimal index resolves to
      Python's `names[k - 1]`. */
  lemma HeadDigitsSegment(p: Pattern, head: string, k: nat, names: seq<string>)
    requires p != Parameter && |head| == HeadLen(p) && IsHeadAt(p, head, 0) && |Show(k)| <= 10
    ensures IsBody(p, head + Show(k))
    ensures ResolveSegment(p, head + Show(k), names) == PyIndex(names, k - 1)
  {
    var b := head + Show(k);
    assert b[..HeadLen(p)] == head && b[HeadLen(p)..] == Show(k);
    assert IsHeadAt(p, b, 0);
    assert Mentions(p, b);
    ParseShow(k);
  }

  /** A species pass over three segments whose outer two are plain text. */
  lemma SubstituteAllMiddle(p: Pattern, pre: string, b: string, post: string, names: seq<string>)
    requires !Mentions(p, pre) && !Mentions(p, post)
    ensures SubstituteAll(p, [pre, b, post], names) ==
      match ResolveSegment(p, b, names)
      case Err(e) => Err(e)
      case Ok(x) => Ok(pre + x + post)
  {
    SubstituteAllSnoc(p, [], pre, names);
    SubstituteAllSnoc(p, [pre], b, names);
    SubstituteAllSnoc(p, [pre, b], post, names);
    assert [] + [pre] == [pre] && [pre] + [b] == [pre, b] && [pre, b] + [post] == [pre, b, post];
    assert "" + pre == pre;
  }

  /** The token text `head` + decimal `k` resolves to Python's `names[k - 1]`:
      the k-th name for 1 <= k <= |names|, the last one for k == 0 (index -1),
      and an IndexError beyond the list. Text around it is kept. */
  lemma SpeciesPassOneToken(p: Pattern, pre: string, head: string, k: nat, post: string, names: seq<string>)
    requires p != Parameter && |head| == HeadLen(p) && IsHeadAt(p, head, 0) && |Show(k)| <= 10
    requires !Mentions(p, pre) && !Mentions(p, post)
    ensures var law := pre + [Open(p)] + head + Show(k) + [Close(p)] + post;
      && (1 <= k <= |names| ==> SpeciesPass(p, law, names) == Ok(pre + names[k - 1] + post))
      && (k == 0 < |names| ==> SpeciesPass(p, law, names) == Ok(pre + names[|names| - 1] + post))
      && (k > |names| ==> SpeciesPass(p, law, names) == Err(IndexOutOfRange(k - 1)))
  {
    var b := head + Show(k);
    assert pre + [Open(p)] + head + Show(k) + [Close(p)] + post == pre + [Open(p)] + b + [Close(p)] + post;
    HeadDigitsSegment(p, head, k, names);
    UnmentionedHasNoToken(p, pre);
    UnmentionedHasNoToken(p, post);
    SplitOfOneToken(p, pre, b, post);
    SubstituteAllMiddle(p, pre, b, post, names);
  }

  /** A token with no digits (`[S]`, `[P]`, `[MOD]`) fails in `int("")`. */
  lemma SpeciesPassEmptyIndex(p: Pattern, pre: string, head: string, post: string, names: seq<string>)
    requires p != Parameter && |head| == HeadLen(p) && IsHeadAt(p, head, 0)
    requires !Mentions(p, pre)
    ensures SpeciesPass(p, pre + [Open(p)] + head + [Close(p)] + post, names) == Err(NotAnInteger(""))
  {
    assert IsBody(p, head);
    UnmentionedHasNoToken(p, pre);
    var law := pre + [Open(p)] + head + [Close(p)] + post;
    var rest := Split(p, post);
    SplitCorrect(p, post);
    assert Mentions(p, head);
    assert SubstituteAll(p, [pre, head], names) == Err(NotAnInteger("")) by {
      assert Drop(head, HeadLen(p)) == "";
      SubstituteAllSnoc(p, [], pre, names);
      SubstituteAllSnoc(p, [pre], head, names);
      assert [] + [pre] == [pre] && [pre] + [head] == [pre, head];
    }
    assert Split(p, law) == [pre, head] + rest by {
      WellSplitCons(p, pre, head, rest);
      RejoinCons(p, pre, head, rest);
      SplitUnique(p, law, [pre, head] + rest);
    }
    assert ([pre, head] + rest)[..2] == [pre, head];
    SubstituteAllSticky(p, [pre, head] + rest, 2, names);
  }

  // ---------------------------------------------------------------------------
  // Parameter pass
  // ---------------------------------------------------------------------------

  /** The type of a parameter ref: its text before the first `_`. */
  function RefType(ref: string): string {
    SplitOn(ref, '_')[0]
  }

  /** The refs, in list order, whose type is a prefix of `seg`. */
  function Matching(seg: string, refs: seq<string>): (m: seq<string>)
    ensures forall r :: r in m <==> r in refs && RefType(r) <= seg
    decreases |refs|
  {
    if refs == [] then []
    else
      var last := refs[|refs| - 1];
      assert refs == refs[..|refs| - 1] + [last];
      Matching(seg, refs[..|refs| - 1]) + (if RefType(last) <= seg then [last] else [])
  }

  /** The table values of `keys` concatenated in order, or a KeyError for
      the first key the table lacks. */
  function LookupAll(keys: seq<string>, table: map<string, string>): (r: Result<string>)
    ensures r.Ok? <==> forall k :: 0 <= k < |keys| ==> keys[k] in table
    ensures r.Err? ==> exists i :: 0 <= i < |keys| && r.error == UnknownParameter(keys[i])
                        && keys[i] !in table && forall j :: 0 <= j < i ==> keys[j] in table
    decreases |keys|
  {
    if keys == [] then Ok("")
    else
      var last := keys[|keys| - 1];
      var front := keys[..|keys| - 1];
      assert forall k :: 0 <= k < |front| ==> front[k] == keys[k];
      match LookupAll(front, table)
      case Err(e) => Err(e)
      case Ok(done) => if last in table then Ok(done + table[last]) else Err(UnknownParameter(last))
  }

  lemma MatchingSnoc(seg: string, refs: seq<string>, r: string)
    ensures Matching(seg, refs + [r]) == Matching(seg, refs) + (if RefType(r) <= seg then [r] else [])
  {
    assert (refs + [r])[..|refs|] == refs;
  }

  lemma LookupAllSnoc(keys: seq<string>, key: string, table: map<string, string>)
    ensures LookupAll(keys + [key], table) ==
      match LookupAll(keys, table)
      case Err(e) => Err(e)
      case Ok(done) => if key in table then Ok(done + table[key]) else Err(UnknownParameter(key))
  {
    assert (keys + [key])[..|keys|] == keys;
  }

  /** One non-empty segment of the parameter pass: the values of all matching
      refs, or the segment itself when none matches. */
  function ParamSegment(seg: string, refs: seq<string>, table: map<string, string>): Result<string> {
    var m := Matching(seg, refs);
    if m == [] then Ok(seg) else LookupAll(m, table)
  }

  function SubstituteParams(parts: seq<string>, refs: seq<string>, table: map<string, string>): Result<string>
    decreases |parts|
  {
    if parts == [] then Ok("")
    else match SubstituteParams(parts[..|parts| - 1], refs, table)
      case Err(e) => Err(e)
      case Ok(done) =>
        var seg := parts[|parts| - 1];
        if seg == "" then Ok(done)
        else match ParamSegment(seg, refs, table)
          case Err(e) => Err(e)
          case Ok(text) => Ok(done + text)
  }

  /** `SubstituteParams` seen from the front: one more segment at the end. */
  lemma SubstituteParamsSnoc(parts: seq<string>, seg: string, refs: seq<string>, table: map<string, string>)
    ensures SubstituteParams(parts + [seg], refs, table) ==
      match SubstituteParams(parts, refs, table)
      case Err(e) => Err(e)
      case Ok(done) =>
        if seg == "" then Ok(done)
        else match ParamSegment(seg, refs, table)
          case Err(e) => Err(e)
          case Ok(text) => Ok(done + text)
  {
    assert (parts + [seg])[..|parts|] == parts;
  }

  function ParameterPass(law: string, refs: seq<string>, table: map<string, string>): Result<string> {
    SubstituteParams(Split(Parameter, law), refs, table)
  }

  lemma {:induction false} SubstituteParamsSticky(parts: seq<string>, k: nat, refs: seq<string>, table: map<string, string>)
    requires k <= |parts| && SubstituteParams(parts[..k], refs, table).Err?
    ensures SubstituteParams(parts, refs, table) == SubstituteParams(parts[..k], refs, table)
    decreases |parts| - k
  {
    if k < |parts| {
      assert parts[..k + 1][..k] == parts[..k];
      SubstituteParamsSticky(parts, k + 1, refs, table);
    } else {
      assert parts[..k] == parts;
    }
  }

  /** Once the lookups of a prefix of the keys fail, all of them fail with
      the same error. */
  lemma {:induction false} LookupAllSticky(keys: seq<string>, all: seq<string>, table: map<string, string>)
    requires keys <= all && LookupAll(keys, table).Err?
    ensures LookupAll(all, table) == LookupAll(keys, table)
    decreases |all|
  {
    if |all| > |keys| {
      var front := all[..|all| - 1];
      assert keys <= front;
      LookupAllSticky(keys, front, table);
    } else {
      assert keys == all;
    }
  }

  /** The matches among the first `j` refs come first among all matches. */
  lemma {:induction false} MatchingPrefix(seg: string, refs: seq<string>, j: nat)
    requires j <= |refs|
    ensures Matching(seg, refs[..j]) <= Matching(seg, refs)
    decreases |refs| - j
  {
    if j == |refs| {
      assert refs[..j] == refs;
    } else {
      MatchingPrefix(seg, refs, j + 1);
      assert refs[..j + 1][..j] == refs[..j];
      var front := Matching(seg, refs[..j]);
      var next := Matching(seg, refs[..j + 1]);
      var all := Matching(seg, refs);
      assert next == front + (if RefType(refs[j]) <= seg then [refs[j]] else []);
      assert all[..|front|] == next[..|front|] == front;
    }
  }

  /** One step of the inner loop: ref `j` joins the matches exactly when its
      type starts the segment. */
  lemma ParamStep(seg: string, refs: seq<string>, j: nat)
    requires j < |refs|
    ensures RefType(refs[j]) <= seg ==> Matching(seg, refs[..j + 1]) == Matching(seg, refs[..j]) + [refs[j]]
    ensures !(RefType(refs[j]) <= seg) ==> Matching(seg, refs[..j + 1]) == Matching(seg, refs[..j])
  {
    assert refs[..j + 1] == refs[..j] + [refs[j]];
    MatchingSnoc(seg, refs[..j], refs[j]);
  }

  /** A matching ref whose key the table has adds its value. */
  lemma ParamFound(seg: string, refs: seq<string>, table: map<string, string>, j: nat, text: string)
    requires j < |refs| && LookupAll(Matching(seg, refs[..j]), table) == Ok(text)
    requires RefType(refs[j]) <= seg && refs[j] in table
    ensures LookupAll(Matching(seg, refs[..j + 1]), table) == Ok(text + table[refs[j]])
  {
    ParamStep(seg, refs, j);
    LookupAllSnoc(Matching(seg, refs[..j]), refs[j], table);
  }

  /** A matching ref whose key the table lacks decides the segment. */
  lemma ParamMissing(seg: string, refs: seq<string>, table: map<string, string>, j: nat, text: string)
    requires j < |refs| && LookupAll(Matching(seg, refs[..j]), table) == Ok(text)
    requires RefType(refs[j]) <= seg && refs[j] !in table
    ensures ParamSegment(seg, refs, table) == Err(UnknownParameter(refs[j]))
  {
    var found := Matching(seg, refs[..j]) + [refs[j]];
    ParamStep(seg, refs, j);
    LookupAllSnoc(Matching(seg, refs[..j]), refs[j], table);
    MatchingPrefix(seg, refs, j + 1);
    LookupAllSticky(found, Matching(seg, refs), table);
  }

  /** The inner loop of the parameter pass over one non-empty segment: every
      ref whose type starts the segment contributes its value, and the
      `parameterAdded` flag decides whether the segment itself is kept
      (csv2model.py:103-113). */
  method ResolveParamSegment(seg: string, refs: seq<string>, table: map<string, string>) returns (r: Result<string>)
    ensures r == ParamSegment(seg, refs, table)
  {
    var text := "";
    var parameterAdded := false;
    assert refs[..0] == [];
    for j := 0 to |refs|
      invariant parameterAdded <==> Matching(seg, refs[..j]) != []
      invariant LookupAll(Matching(seg, refs[..j]), table) == Ok(text)
    {
      var key := refs[j];
      ParamStep(seg, refs, j);
      var paramType := SplitOn(key, '_')[0];
      if paramType <= seg {
        if key !in table {
          ParamMissing(seg, refs, table, j, text);
          r := Err(UnknownParameter(key));
          return;
        }
        ParamFound(seg, refs, table, j, text);
        text := text + table[key];
        parameterAdded := true;
      }
    }
    assert refs[..|refs|] == refs;
    if !parameterAdded {
      text := seg;
    }
    r := Ok(text);
  }

  /** The parameter pass, as the loop of csv2model.py:100-116 over the
      `re.split` pieces; empty pieces are skipped. */
  method SubstituteParameters(law: string, refs: seq<string>, table: map<string, string>) returns (r: Result<string>)
    ensures r == ParameterPass(law, refs, table)
  {
    var splitLaw := Split(Parameter, law);
    var newLaw := "";
    for i := 0 to |splitLaw|
      invariant SubstituteParams(splitLaw[..i], refs, table) == Ok(newLaw)
    {
      assert splitLaw[..i + 1] == splitLaw[..i] + [splitLaw[i]];
      SubstituteParamsSnoc(splitLaw[..i], splitLaw[i], refs, table);
      if splitLaw[i] != "" {
        var text := ResolveParamSegment(splitLaw[i], refs, table);
        if text.Err? {
          r := text;
          SubstituteParamsSticky(splitLaw, i + 1, refs, table);
          return;
        }
        newLaw := newLaw + text.value;
      }
    }
    assert splitLaw[..|splitLaw|] == splitLaw;
    r := Ok(newLaw);
  }

  /** No ref matches a segment that no ref type starts. */
  lemma {:induction false} MatchingNone(seg: string, refs: seq<string>)
    requires forall r :: r in refs ==> !(RefType(r) <= seg)
    ensures Matching(seg, refs) == []
    decreases |refs|
  {
    if refs != [] {
      var front := refs[..|refs| - 1];
      assert forall r :: r in front ==> r in refs;
      MatchingNone(seg, front);
      assert refs[|refs| - 1] in refs;
    }
  }

  /** A `{name}` token that no ref of the reaction matches is replaced by the
      bare name: its braces are dropped. */
  lemma ParameterPassUnmatched(name: string, refs: seq<string>, table: map<string, string>)
    requires IsBody(Parameter, name)
    requires forall r :: r in refs ==> !(RefType(r) <= name)
    ensures ParameterPass("{" + name + "}", refs, table) == Ok(name)
  {
    assert Split(Parameter, "{" + name + "}") == ["", name, ""] by {
      NoOpenNoToken(Parameter, "");
      SplitOfOneToken(Parameter, "", name, "");
      assert "" + [Open(Parameter)] + name + [Close(Parameter)] + "" == "{" + name + "}";
    }
    assert ParamSegment(name, refs, table) == Ok(name) by {
      MatchingNone(name, refs);
    }
    assert SubstituteParams(["", name, ""], refs, table) == Ok(name) by {
      SubstituteParamsSnoc([], "", refs, table);
      SubstituteParamsSnoc([""], name, refs, table);
      SubstituteParamsSnoc(["", name], "", refs, table);
      assert [] + [""] == [""] && [""] + [name] == ["", name] && ["", name] + [""] == ["", name, ""];
      assert "" + name == name;
    }
  }

  /** The empty ref matches every non-empty segment and is not in the table. */
  lemma EmptyRefSegment(seg: string, table: map<string, string>)
    requires seg != "" && "" !in table
    ensures ParamSegment(seg, [""], table) == Err(UnknownParameter(""))
  {
    assert RefType("") == "";
    assert [""] == [] + [""];
    MatchingSnoc(seg, [], "");
    LookupAllSnoc([], "", table);
  }

  /** Some segment is non-empty. */
  predicate HasText(parts: seq<string>) {
    exists k :: 0 <= k < |parts| && parts[k] != ""
  }

  /** `HasText` seen from the front: one more segment at the end. */
  lemma HasTextSnoc(front: seq<string>, seg: string)
    ensures HasText(front + [seg]) <==> HasText(front) || seg != ""
  {
    var parts := front + [seg];
    if HasText(front) {
      var k :| 0 <= k < |front| && front[k] != "";
      assert parts[k] == front[k];
    }
    if seg != "" {
      assert parts[|front|] == seg;
    }
    if HasText(parts) {
      var k :| 0 <= k < |parts| && parts[k] != "";
      if k < |front| {
        assert front[k] == parts[k];
      }
    }
  }

  /** With the refs `[""]` of an empty parameters field, every segment is
      matched by the empty type, so the first non-empty segment fails on
      the missing key `""`. */
  lemma {:induction false} SubstituteParamsEmptyRef(parts: seq<string>, table: map<string, string>)
    requires "" !in table
    ensures SubstituteParams(parts, [""], table) ==
      if HasText(parts) then Err(UnknownParameter("")) else Ok("")
    decreases |parts|
  {
    if parts != [] {
      var front := parts[..|parts| - 1];
      var seg := parts[|parts| - 1];
      SubstituteParamsEmptyRef(front, table);
      assert parts == front + [seg];
      SubstituteParamsSnoc(front, seg, [""], table);
      HasTextSnoc(front, seg);
      if seg != "" {
        EmptyRefSegment(seg, table);
      }
    }
  }

  /** An empty parameters field splits to `[""]`; then any non-empty template
      ends in a KeyError for `""`. */
  lemma ParameterPassEmptyField(law: string, table: map<string, string>)
    requires law != "" && "" !in table
    ensures ParameterPass(law, SplitOn("", ' '), table) == Err(UnknownParameter(""))
  {
    var parts := Split(Parameter, law);
    SplitCorrect(Parameter, law);
    SubstituteParamsEmptyRef(parts, table);
    if |parts| == 1 {
      assert parts[0] == law;
    } else {
      assert IsBody(Parameter, parts[1]);
      assert parts[1] != "";
    }
  }

  // ---------------------------------------------------------------------------
  // One reaction row
  // ---------------------------------------------------------------------------

  /** The five cells of a reaction row. */
  datatype Reaction = Reaction(substrates: string, products: string, kineticLaw: string,
                               modifiers: string, parameters: string)

  /** The rate law printed for one reaction: the template looked up by id,
      then the substrate, product, modifier and parameter passes, each on
      the output of the previous one; the first error wins. */
  function ResolveRow(rxn: Reaction, laws: map<string, string>, params: map<string, string>): Result<string> {
    if rxn.kineticLaw !in laws then Err(UnknownRateLaw(rxn.kineticLaw))
    else match SpeciesPass(Substrate, laws[rxn.kineticLaw], SplitOn(rxn.substrates, ' '))
      case Err(e) => Err(e)
      case Ok(law1) =>
        match SpeciesPass(Product, law1, SplitOn(rxn.products, ' '))
        case Err(e) => Err(e)
        case Ok(law2) =>
          match SpeciesPass(Modifier, law2, SplitOn(rxn.modifiers, ' '))
          case Err(e) => Err(e)
          case Ok(law3) => ParameterPass(law3, SplitOn(rxn.parameters, ' '), params)
  }

  /** The body of the reaction loop, csv2model.py:38-116. */
  method ResolveReaction(rxn: Reaction, laws: map<string, string>, params: map<string, string>) returns (r: Result<string>)
    ensures r == ResolveRow(rxn, laws, params)
  {
    var substratesInThisRxn := SplitOn(rxn.substrates, ' ');
    var productsInThisRxn := SplitOn(rxn.products, ' ');
    var modifiersInThisRxn := SplitOn(rxn.modifiers, ' ');
    var parametersInThisRxn := SplitOn(rxn.parameters, ' ');
    if rxn.kineticLaw !in laws {
      return Err(UnknownRateLaw(rxn.kineticLaw));
    }
    var thisLaw := laws[rxn.kineticLaw];
    r := SubstituteSpecies(Substrate, thisLaw, substratesInThisRxn);
    if r.Err? { return; }
    r := SubstituteSpecies(Product, r.value, productsInThisRxn);
    if r.Err? { return; }
    r := SubstituteSpecies(Modifier, r.value, modifiersInThisRxn);
    if r.Err? { return; }
    r := SubstituteParameters(r.value, parametersInThisRxn, params);
  }
}
