/** The four `re.split` patterns of the resolver, each with exactly one
    capturing group:

      Substrate  `\[([sS]\d{0,10})\]`
      Product    `\[([pP]\d{0,10})\]`
      Modifier   `\[([mM][Oo][Dd]\d{0,10})\]`
      Parameter  `\{(\w{1,20})\}`

    `Split` returns what `re.split` returns for them: literal text at even
    positions, captured token bodies at odd positions, matches taken leftmost
    and non-overlapping. */
module Tokenizer {
  import opened Text

  datatype Pattern = Substrate | Product | Modifier | Parameter

  function Open(p: Pattern): char {
    if p == Parameter then '{' else '['
  }

  function Close(p: Pattern): char {
    if p == Parameter then '}' else ']'
  }

  /** Number of letters before the digits of a species token body:
      `S`/`P` take one, `MOD` three; a parameter body has no such head. */
  function HeadLen(p: Pattern): nat {
    match p
    case Substrate => 1
    case Product => 1
    case Modifier => 3
    case Parameter => 0
  }

  /** `[mM][Oo][Dd]` at position `k` of `s`. */
  predicate IsModAt(s: string, k: nat)
    requires k + 3 <= |s|
  {
    (s[k] == 'm' || s[k] == 'M') && (s[k + 1] == 'o' || s[k + 1] == 'O') && (s[k + 2] == 'd' || s[k + 2] == 'D')
  }

  /** The letter class that opens a species token body, read at `a` in `s`. */
  predicate IsHeadAt(p: Pattern, s: string, a: nat)
    requires a + HeadLen(p) <= |s|
  {
    match p
    case Substrate => s[a] == 's' || s[a] == 'S'
    case Product => s[a] == 'p' || s[a] == 'P'
    case Modifier => IsModAt(s, a)
    case Parameter => true
  }

  /** The repeated class after the head: `\w` for a parameter, `\d` for a species token. */
  predicate IsTailChar(p: Pattern, ch: char) {
    if p == Parameter then IsWordChar(ch) else IsDigit(ch)
  }

  function MinBody(p: Pattern): nat {
    if p == Parameter then 1 else HeadLen(p)
  }

  function MaxBody(p: Pattern): nat {
    if p == Parameter then 20 else HeadLen(p) + 10
  }

  /** The `n` characters of `s` from `a` are text the capturing group of
      pattern `p` accepts: `\w{1,20}` for a parameter, the head letters and
      then `\d{0,10}` for a species token. */
  predicate IsBodyAt(p: Pattern, s: string, a: nat, n: nat)
    requires a + n <= |s|
  {
    && MinBody(p) <= n <= MaxBody(p)
    && IsHeadAt(p, s, a)
    && forall k {:trigger IsTailChar(p, s[k])} :: a + HeadLen(p) <= k < a + n ==> IsTailChar(p, s[k])
  }

  /** `b` is text the capturing group of pattern `p` accepts. */
  predicate IsBody(p: Pattern, b: string) {
    IsBodyAt(p, b, 0, |b|)
  }

  /** A whole match of pattern `p` starts at `i` in `s`, its body `n` long. */
  predicate TokenAt(p: Pattern, s: string, i: nat, n: nat) {
    i + n + 2 <= |s| && s[i] == Open(p) && IsBodyAt(p, s, i + 1, n) && s[i + 1 + n] == Close(p)
  }

  /** No match of `p` starts anywhere in `t`. */
  ghost predicate NoToken(p: Pattern, t: string) {
    forall j: nat, n: nat :: !TokenAt(p, t, j, n)
  }

  /** Reading a body in place or in a copy of the same characters is the same. */
  lemma BodyAtShift(p: Pattern, s: string, a: nat, t: string, b: nat, n: nat)
    requires a + n <= |s| && b + n <= |t| && s[a..a + n] == t[b..b + n]
    ensures IsBodyAt(p, s, a, n) <==> IsBodyAt(p, t, b, n)
  {
    assert forall k :: a <= k < a + n ==> s[k] == s[a..a + n][k - a];
    assert forall k :: b <= k < b + n ==> t[k] == t[b..b + n][k - b];
    if HeadLen(p) <= n {
      var h := HeadLen(p);
      if h > 0 {
        assert s[a] == t[b];
      }
      if p == Modifier {
        assert s[a + 1] == t[b + 1] && s[a + 2] == t[b + 2];
      }
      if IsBodyAt(p, s, a, n) {
        forall k | b + h <= k < b + n ensures IsTailChar(p, t[k]) {
          assert t[k] == s[a + (k - b)];
        }
      }
      if IsBodyAt(p, t, b, n) {
        forall k | a + h <= k < a + n ensures IsTailChar(p, s[k]) {
          assert s[k] == t[b + (k - a)];
        }
      }
    }
  }

  /** The body of a match, cut out of the text, is a body. */
  lemma BodyOfToken(p: Pattern, s: string, i: nat, n: nat)
    requires TokenAt(p, s, i, n)
    ensures IsBody(p, s[i + 1..i + 1 + n])
  {
    assert s[i + 1..i + 1 + n][0..n] == s[i + 1..i + 1 + n];
    BodyAtShift(p, s, i + 1, s[i + 1..i + 1 + n], 0, n);
  }

  /** Neither delimiter of `p` can occur inside a body. */
  lemma BodyAvoidsDelimiters(p: Pattern, s: string, a: nat, n: nat, k: nat)
    requires a + n <= |s| && IsBodyAt(p, s, a, n) && a <= k < a + n
    ensures s[k] != Open(p) && s[k] != Close(p)
  {
    if k >= a + HeadLen(p) {
      assert IsTailChar(p, s[k]);
    }
  }

  /** Length of the run of tail characters of `p` starting at `k`. */
  function Run(p: Pattern, s: string, k: nat): nat
    decreases |s| - k
  {
    if k < |s| && IsTailChar(p, s[k]) then 1 + Run(p, s, k + 1) else 0
  }

  /** `Run` stops exactly at the first character outside the class. */
  lemma {:induction false} RunSpec(p: Pattern, s: string, k: nat)
    requires k <= |s|
    ensures k + Run(p, s, k) <= |s|
    ensures forall j {:trigger IsTailChar(p, s[j])} :: k <= j < k + Run(p, s, k) ==> IsTailChar(p, s[j])
    ensures k + Run(p, s, k) < |s| ==> !IsTailChar(p, s[k + Run(p, s, k)])
    decreases |s| - k
  {
    if k < |s| && IsTailChar(p, s[k]) {
      RunSpec(p, s, k + 1);
    }
  }

  /** The body length of the match starting at `i`, if one does: the head
      letters, then the longest run of the repeated class, then the closing
      delimiter. */
  function MatchAt(p: Pattern, s: string, i: nat): Option<nat> {
    if i + 1 + HeadLen(p) > |s| || s[i] != Open(p) || !IsHeadAt(p, s, i + 1) then None
    else
      var n := HeadLen(p) + Run(p, s, i + 1 + HeadLen(p));
      if MinBody(p) <= n <= MaxBody(p) && i + 1 + n < |s| && s[i + 1 + n] == Close(p) then Some(n)
      else None
  }

  /** `MatchAt` finds the match at `i` exactly when there is one; in
      particular at most one body length matches at a position, so the
      greedy `\d{0,10}` and `\w{1,20}` make no difference. */
  lemma MatchAtExact(p: Pattern, s: string, i: nat)
    ensures forall n: nat :: TokenAt(p, s, i, n) <==> MatchAt(p, s, i) == Some(n)
  {
    var h := HeadLen(p);
    if i + 1 + h <= |s| {
      RunSpec(p, s, i + 1 + h);
      var m := h + Run(p, s, i + 1 + h);
      forall n: nat | TokenAt(p, s, i, n) ensures n == m {
        assert !IsTailChar(p, s[i + 1 + n]);
        assert i + 1 + m < |s| ==> !IsTailChar(p, s[i + 1 + m]);
      }
    }
  }

  lemma MatchAtSome(p: Pattern, s: string, i: nat, n: nat)
    requires MatchAt(p, s, i) == Some(n)
    ensures TokenAt(p, s, i, n)
  {
    MatchAtExact(p, s, i);
  }

  /** `re.split` from scan position `i`, the current literal run starting at `lit`. */
  function SplitFrom(p: Pattern, s: string, lit: nat, i: nat): seq<string>
    requires lit <= i <= |s|
    decreases |s| - i
  {
    if i == |s| then [s[lit..]]
    else match MatchAt(p, s, i)
      case Some(n) => [s[lit..i], s[i + 1..i + 1 + n]] + SplitFrom(p, s, i + n + 2, i + n + 2)
      case None => SplitFrom(p, s, lit, i + 1)
  }

  lemma SplitFromSome(p: Pattern, s: string, lit: nat, i: nat, n: nat)
    requires lit <= i < |s| && MatchAt(p, s, i) == Some(n)
    ensures i + n + 2 <= |s|
    ensures SplitFrom(p, s, lit, i) == [s[lit..i], s[i + 1..i + 1 + n]] + SplitFrom(p, s, i + n + 2, i + n + 2)
  {
  }

  lemma SplitFromNone(p: Pattern, s: string, lit: nat, i: nat)
    requires lit <= i < |s| && MatchAt(p, s, i).None?
    ensures SplitFrom(p, s, lit, i) == SplitFrom(p, s, lit, i + 1)
  {
  }

  /** `re.split(pattern(p), s)`. */
  function Split(p: Pattern, s: string): seq<string> {
    SplitFrom(p, s, 0, 0)
  }

  /** Puts the delimiters back around the captured bodies. */
  function Rejoin(p: Pattern, parts: seq<string>): string
    requires |parts| % 2 == 1
    decreases |parts|
  {
    if |parts| == 1 then parts[0]
    else parts[0] + [Open(p)] + parts[1] + [Close(p)] + Rejoin(p, parts[2..])
  }

  /** The shape of a `re.split` result: odd length, bodies at odd positions,
      match-free literal text at even positions. */
  ghost predicate WellSplit(p: Pattern, parts: seq<string>)
    decreases |parts|
  {
    && |parts| % 2 == 1
    && NoToken(p, parts[0])
    && (|parts| > 1 ==> IsBody(p, parts[1]) && WellSplit(p, parts[2..]))
  }

  /** The same shape, position by position. */
  lemma {:induction false} WellSplitAt(p: Pattern, parts: seq<string>, k: nat)
    requires WellSplit(p, parts) && k < |parts|
    ensures k % 2 == 1 ==> IsBody(p, parts[k])
    ensures k % 2 == 0 ==> NoToken(p, parts[k])
    decreases k
  {
    if k >= 2 {
      WellSplitAt(p, parts[2..], k - 2);
      assert parts[2..][k - 2] == parts[k];
    }
  }

  lemma WellSplitCons(p: Pattern, a: string, b: string, rest: seq<string>)
    requires NoToken(p, a) && IsBody(p, b)
    ensures WellSplit(p, rest) <==> WellSplit(p, [a, b] + rest)
  {
    assert ([a, b] + rest)[2..] == rest;
  }

  /** A match read in a slice is a match in the whole string, and back. */
  lemma TokenInSlice(p: Pattern, s: string, a: nat, b: nat, j: nat, n: nat)
    requires a <= b <= |s| && j + n + 2 <= b - a
    ensures TokenAt(p, s[a..b], j, n) <==> TokenAt(p, s, a + j, n)
  {
    var t := s[a..b];
    assert t[j] == s[a + j] && t[j + 1 + n] == s[a + j + 1 + n];
    var u, v := t[j + 1..j + 1 + n], s[a + j + 1..a + j + 1 + n];
    assert forall k :: 0 <= k < n ==> u[k] == v[k];
    assert u == v;
    BodyAtShift(p, t, j + 1, s, a + j + 1, n);
  }

  /** No match starts at a position in `lit..i` of `s`. */
  ghost predicate NoMatchBetween(p: Pattern, s: string, lit: nat, i: nat) {
    forall j: nat :: lit <= j < i ==> MatchAt(p, s, j).None?
  }

  lemma NoMatchSlice(p: Pattern, s: string, lit: nat, i: nat)
    requires lit <= i <= |s| && NoMatchBetween(p, s, lit, i)
    ensures NoToken(p, s[lit..i])
  {
    forall j: nat, n: nat ensures !TokenAt(p, s[lit..i], j, n) {
      if j + n + 2 <= i - lit {
        TokenInSlice(p, s, lit, i, j, n);
        assert MatchAt(p, s, lit + j).None?;
        MatchAtExact(p, s, lit + j);
      }
    }
  }

  lemma RejoinCons(p: Pattern, a: string, b: string, rest: seq<string>)
    requires |rest| % 2 == 1
    ensures Rejoin(p, [a, b] + rest) == a + [Open(p)] + b + [Close(p)] + Rejoin(p, rest)
  {
    assert ([a, b] + rest)[2..] == rest;
  }

  /** The text from `lit` on, cut around a match at `i` with an `n`-long body. */
  lemma SliceAroundToken(p: Pattern, s: string, lit: nat, i: nat, n: nat)
    requires lit <= i && TokenAt(p, s, i, n)
    ensures s[lit..] == s[lit..i] + [Open(p)] + s[i + 1..i + 1 + n] + [Close(p)] + s[i + n + 2..]
  {
    assert s[lit..] == s[lit..i] + s[i..i + 1] + s[i + 1..i + 1 + n] + s[i + 1 + n..i + n + 2] + s[i + n + 2..];
  }

  /** A literal run, one match and a well-split rest rebuild the text from `lit`. */
  lemma ConsCorrect(p: Pattern, s: string, lit: nat, i: nat, n: nat, rest: seq<string>)
    requires lit <= i && TokenAt(p, s, i, n) && NoToken(p, s[lit..i])
    requires WellSplit(p, rest) && Rejoin(p, rest) == s[i + n + 2..]
    ensures WellSplit(p, [s[lit..i], s[i + 1..i + 1 + n]] + rest)
    ensures Rejoin(p, [s[lit..i], s[i + 1..i + 1 + n]] + rest) == s[lit..]
  {
    BodyOfToken(p, s, i, n);
    WellSplitCons(p, s[lit..i], s[i + 1..i + 1 + n], rest);
    RejoinCons(p, s[lit..i], s[i + 1..i + 1 + n], rest);
    SliceAroundToken(p, s, lit, i, n);
  }

  lemma {:induction false} SplitFromCorrect(p: Pattern, s: string, lit: nat, i: nat)
    requires lit <= i <= |s| && NoMatchBetween(p, s, lit, i)
    ensures WellSplit(p, SplitFrom(p, s, lit, i))
    ensures Rejoin(p, SplitFrom(p, s, lit, i)) == s[lit..]
    decreases |s| - i, 1
  {
    if i == |s| {
      CorrectAtEnd(p, s, lit, i);
    } else if MatchAt(p, s, i).Some? {
      CorrectAtToken(p, s, lit, i);
    } else {
      CorrectPastChar(p, s, lit, i);
    }
  }

  /** At the end of the string the split is the literal run alone. */
  lemma CorrectAtEnd(p: Pattern, s: string, lit: nat, i: nat)
    requires lit <= i == |s| && NoMatchBetween(p, s, lit, i)
    ensures WellSplit(p, SplitFrom(p, s, lit, i))
    ensures Rejoin(p, SplitFrom(p, s, lit, i)) == s[lit..]
  {
    NoMatchSlice(p, s, lit, i);
    assert s[lit..i] == s[lit..];
    assert WellSplit(p, [s[lit..]]);
    assert SplitFrom(p, s, lit, i) == [s[lit..]];
  }

  /** A match at `i` closes the literal run and contributes its body. */
  lemma {:induction false} CorrectAtToken(p: Pattern, s: string, lit: nat, i: nat)
    requires lit <= i < |s| && NoMatchBetween(p, s, lit, i) && MatchAt(p, s, i).Some?
    ensures WellSplit(p, SplitFrom(p, s, lit, i))
    ensures Rejoin(p, SplitFrom(p, s, lit, i)) == s[lit..]
    decreases |s| - i, 0
  {
    var n := MatchAt(p, s, i).value;
    var e := i + n + 2;
    assert TokenAt(p, s, i, n) by {
      MatchAtSome(p, s, i, n);
    }
    assert e <= |s| && SplitFrom(p, s, lit, i) == [s[lit..i], s[i + 1..i + 1 + n]] + SplitFrom(p, s, e, e) by {
      SplitFromSome(p, s, lit, i, n);
    }
    var rest := SplitFrom(p, s, e, e);
    assert WellSplit(p, rest) && Rejoin(p, rest) == s[e..] by {
      SplitFromCorrect(p, s, e, e);
    }
    assert NoToken(p, s[lit..i]) by {
      NoMatchSlice(p, s, lit, i);
    }
    ConsCorrect(p, s, lit, i, n, rest);
  }

  /** Without a match at `i` the literal run grows by one character. */
  lemma {:induction false} CorrectPastChar(p: Pattern, s: string, lit: nat, i: nat)
    requires lit <= i < |s| && NoMatchBetween(p, s, lit, i) && MatchAt(p, s, i).None?
    ensures WellSplit(p, SplitFrom(p, s, lit, i))
    ensures Rejoin(p, SplitFrom(p, s, lit, i)) == s[lit..]
    decreases |s| - i, 0
  {
    SplitFromNone(p, s, lit, i);
    SplitFromCorrect(p, s, lit, i + 1);
  }

  /** `Split` has the shape of a `re.split` result and loses no text:
      putting the delimiters back reproduces the input. */
  lemma SplitCorrect(p: Pattern, s: string)
    ensures WellSplit(p, Split(p, s))
    ensures Rejoin(p, Split(p, s)) == s
  {
    SplitFromCorrect(p, s, 0, 0);
  }

  /** What `Rejoin` says about the characters of the string it rebuilds. */
  lemma RejoinLayout(p: Pattern, parts: seq<string>)
    requires |parts| % 2 == 1
    ensures var s := Rejoin(p, parts); var L := |parts[0]|;
      && |s| >= L
      && s[..L] == parts[0]
      && (|parts| == 1 ==> |s| == L)
      && (|parts| > 1 ==>
           && |s| >= L + |parts[1]| + 2
           && s[L] == Open(p)
           && s[L + 1..L + 1 + |parts[1]|] == parts[1]
           && s[L + 1 + |parts[1]|] == Close(p)
           && s[L + |parts[1]| + 2..] == Rejoin(p, parts[2..]))
  {
    if |parts| > 1 {
      var s := Rejoin(p, parts);
      var L := |parts[0]|;
      var m := |parts[1]|;
      assert s == parts[0] + [Open(p)] + parts[1] + [Close(p)] + Rejoin(p, parts[2..]);
      assert s[L + 1..L + 1 + m] == parts[1];
      assert s[L + m + 2..] == Rejoin(p, parts[2..]);
    }
  }

  /** No match starts before the first literal run of `parts` ends. */
  lemma NoMatchInsideLiteral(p: Pattern, s: string, lit: nat, i: nat, parts: seq<string>)
    requires |parts| % 2 == 1 && lit <= i < lit + |parts[0]| <= |s|
    requires WellSplit(p, parts) && s[lit..lit + |parts[0]|] == parts[0]
    requires |parts| == 1 ==> lit + |parts[0]| == |s|
    requires |parts| > 1 ==> lit + |parts[0]| < |s| && s[lit + |parts[0]|] == Open(p)
    ensures MatchAt(p, s, i).None?
  {
    var L := lit + |parts[0]|;
    MatchAtExact(p, s, i);
    forall n: nat ensures !TokenAt(p, s, i, n) {
      if i + n + 2 <= L {
        TokenInSlice(p, s, lit, L, i - lit, n);
        assert NoToken(p, parts[0]);
      } else if i + n + 2 <= |s| && L <= i + n && IsBodyAt(p, s, i + 1, n) {
        BodyAvoidsDelimiters(p, s, i + 1, n, L);
      }
    }
  }

  lemma SuffixSlice(s: string, lit: nat, a: nat, b: nat)
    requires lit <= |s| && a <= b <= |s| - lit
    ensures s[lit..][a..b] == s[lit + a..lit + b]
  {
  }

  lemma SuffixDrop(s: string, lit: nat, a: nat)
    requires lit + a <= |s|
    ensures s[lit..][a..] == s[lit + a..]
  {
  }

  /** Where the first literal run of `parts` sits in `s`, and what follows it. */
  lemma LayoutLiteral(p: Pattern, s: string, lit: nat, parts: seq<string>)
    requires lit <= |s| && |parts| % 2 == 1 && Rejoin(p, parts) == s[lit..]
    ensures lit + |parts[0]| <= |s| && s[lit..lit + |parts[0]|] == parts[0]
    ensures |parts| == 1 ==> lit + |parts[0]| == |s|
    ensures |parts| > 1 ==> lit + |parts[0]| < |s| && s[lit + |parts[0]|] == Open(p)
  {
    RejoinLayout(p, parts);
    SuffixSlice(s, lit, 0, |parts[0]|);
    assert s[lit..][..|parts[0]|] == s[lit..][0..|parts[0]|];
  }

  /** Where the first match of `parts` sits in `s`. */
  lemma LayoutToken(p: Pattern, s: string, lit: nat, parts: seq<string>, L: nat, n: nat)
    requires lit <= |s| && WellSplit(p, parts) && Rejoin(p, parts) == s[lit..] && |parts| > 1
    requires L == lit + |parts[0]| && n == |parts[1]|
    ensures L + n + 2 <= |s|
    ensures TokenAt(p, s, L, n)
    ensures s[lit..L] == parts[0]
    ensures s[L + 1..L + 1 + n] == parts[1]
    ensures s[L + n + 2..] == Rejoin(p, parts[2..])
  {
    LayoutLiteral(p, s, lit, parts);
    RejoinLayout(p, parts);
    var k := |parts[0]|;
    SuffixSlice(s, lit, k + 1, k + 1 + n);
    SuffixDrop(s, lit, k + n + 2);
    assert s[L + 1 + n] == s[lit..][k + 1 + n];
    assert IsBody(p, parts[1]);
    assert parts[1][0..n] == parts[1];
    BodyAtShift(p, parts[1], 0, s, L + 1, n);
  }

  /** A token at the scan position is taken as the next match. */
  lemma SplitFromToken(p: Pattern, s: string, lit: nat, i: nat, n: nat, before: string, body: string)
    requires lit <= i && TokenAt(p, s, i, n)
    requires before == s[lit..i] && body == s[i + 1..i + 1 + n]
    ensures i + n + 2 <= |s|
    ensures SplitFrom(p, s, lit, i) == [before, body] + SplitFrom(p, s, i + n + 2, i + n + 2)
  {
    MatchAtExact(p, s, i);
    SplitFromSome(p, s, lit, i, n);
  }

  lemma FirstTwoAndRest(parts: seq<string>, whole: seq<string>, rest: seq<string>)
    requires |parts| >= 2 && whole == [parts[0], parts[1]] + rest && rest == parts[2..]
    ensures whole == parts
  {
    assert [parts[0], parts[1]] + parts[2..] == parts;
  }

  /** Inside the first literal run of `parts` the scan finds no match and
      moves on. */
  lemma {:induction false} UniqueInsideLiteral(p: Pattern, s: string, lit: nat, i: nat, parts: seq<string>)
    requires lit <= i <= |s| && WellSplit(p, parts) && Rejoin(p, parts) == s[lit..]
    requires i < lit + |parts[0]|
    ensures SplitFrom(p, s, lit, i) == parts
    decreases |s| - i, 0
  {
    LayoutLiteral(p, s, lit, parts);
    NoMatchInsideLiteral(p, s, lit, i, parts);
    SplitFromNone(p, s, lit, i);
    SplitFromUnique(p, s, lit, i + 1, parts);
  }

  /** With no match left, the scan ends on the last literal run. */
  lemma UniqueAtEnd(p: Pattern, s: string, lit: nat, i: nat, parts: seq<string>)
    requires lit <= i <= |s| && WellSplit(p, parts) && Rejoin(p, parts) == s[lit..]
    requires i == lit + |parts[0]| && |parts| == 1
    ensures SplitFrom(p, s, lit, i) == parts
  {
    LayoutLiteral(p, s, lit, parts);
    assert s[lit..] == parts[0];
  }

  /** At the end of the literal run the scan takes the token and goes on
      with the rest of `parts`. */
  lemma {:induction false} UniqueAtToken(p: Pattern, s: string, lit: nat, i: nat, parts: seq<string>)
    requires lit <= i <= |s| && WellSplit(p, parts) && Rejoin(p, parts) == s[lit..]
    requires i == lit + |parts[0]| && |parts| > 1
    ensures SplitFrom(p, s, lit, i) == parts
    decreases |s| - i, 0
  {
    var n := |parts[1]|;
    var e := i + n + 2;
    TokenStep(p, s, lit, parts, i, n, e);
    SplitFromUnique(p, s, e, e, parts[2..]);
    FirstTwoAndRest(parts, SplitFrom(p, s, lit, i), SplitFrom(p, s, e, e));
  }

  /** Where a decomposition puts a token, `SplitFrom` reads that token and
      carries on after it with the rest of the decomposition. */
  lemma TokenStep(p: Pattern, s: string, lit: nat, parts: seq<string>, i: nat, n: nat, e: nat)
    requires lit <= |s| && WellSplit(p, parts) && Rejoin(p, parts) == s[lit..] && |parts| > 1
    requires i == lit + |parts[0]| && n == |parts[1]| && e == i + n + 2
    ensures e <= |s|
    ensures WellSplit(p, parts[2..]) && Rejoin(p, parts[2..]) == s[e..]
    ensures SplitFrom(p, s, lit, i) == [parts[0], parts[1]] + SplitFrom(p, s, e, e)
  {
    LayoutToken(p, s, lit, parts, i, n);
    SplitFromToken(p, s, lit, i, n, parts[0], parts[1]);
  }


  lemma {:induction false} SplitFromUnique(p: Pattern, s: string, lit: nat, i: nat, parts: seq<string>)
    requires lit <= i <= |s|
    requires WellSplit(p, parts) && Rejoin(p, parts) == s[lit..]
    requires i <= lit + |parts[0]|
    ensures SplitFrom(p, s, lit, i) == parts
    decreases |s| - i, 1
  {
    if i < lit + |parts[0]| {
      UniqueInsideLiteral(p, s, lit, i, parts);
    } else if |parts| == 1 {
      UniqueAtEnd(p, s, lit, i, parts);
    } else {
      UniqueAtToken(p, s, lit, i, parts);
    }
  }

  /** `Split` is the only decomposition with the shape of a `re.split`
      result that rebuilds the input: the leftmost-match scan is pinned down
      by the shape alone. */
  lemma SplitUnique(p: Pattern, s: string, parts: seq<string>)
    requires WellSplit(p, parts) && Rejoin(p, parts) == s
    ensures Split(p, s) == parts
  {
    SplitFromUnique(p, s, 0, 0, parts);
  }

  /** Text without the opening delimiter holds no match. */
  lemma NoOpenNoToken(p: Pattern, t: string)
    requires Open(p) !in t
    ensures NoToken(p, t)
  {
  }

  /** Text with no match splits into itself alone. */
  lemma SplitOfPlain(p: Pattern, t: string)
    requires NoToken(p, t)
    ensures Split(p, t) == [t]
  {
    SplitUnique(p, t, [t]);
  }

  /** A single match between two match-free stretches splits into three parts. */
  lemma SplitOfOneToken(p: Pattern, pre: string, b: string, post: string)
    requires NoToken(p, pre) && IsBody(p, b) && NoToken(p, post)
    ensures Split(p, pre + [Open(p)] + b + [Close(p)] + post) == [pre, b, post]
  {
    var parts := [pre, b, post];
    assert parts[2..] == [post];
    assert WellSplit(p, parts);
    SplitUnique(p, pre + [Open(p)] + b + [Close(p)] + post, parts);
  }
}
