/** Character and string helpers standing in for the Python built-ins the
    resolver leans on: `str.split(sep)`, `str.startswith`, `int(...)` and the
    ASCII classes `\d` and `\w` of the `re` module. */
module Text {

  datatype Option<T> = None | Some(value: T)

  /** `\d`, read as ASCII. */
  predicate IsDigit(ch: char) {
    '0' <= ch <= '9'
  }

  /** `\w`, read as ASCII: letters, digits and underscore. */
  predicate IsWordChar(ch: char) {
    ('a' <= ch <= 'z') || ('A' <= ch <= 'Z') || IsDigit(ch) || ch == '_'
  }

  predicate AllDigits(s: string) {
    forall k :: 0 <= k < |s| ==> IsDigit(s[k])
  }

  /** Python's `s[k:]`: the suffix from `k`, empty when `k` is past the end. */
  function Drop(s: string, k: nat): string {
    if k <= |s| then s[k..] else ""
  }

  // ---------------------------------------------------------------------------
  // str.split(sep) with an explicit one-character separator
  // ---------------------------------------------------------------------------

  /** The pieces of `s` between occurrences of `sep`, as Python's
      `s.split(sep)` returns them: never empty, and `""` gives `[""]`. */
  function SplitOn(s: string, sep: char): (r: seq<string>)
    ensures |r| >= 1
    decreases |s|
  {
    if s == [] then [""]
    else
      var rest := SplitOn(s[1..], sep);
      if s[0] == sep then [""] + rest
      else [[s[0]] + rest[0]] + rest[1..]
  }

  /** Python's `sep.join(parts)`. */
  function Join(parts: seq<string>, sep: char): string
    decreases |parts|
  {
    if |parts| == 0 then ""
    else if |parts| == 1 then parts[0]
    else parts[0] + [sep] + Join(parts[1..], sep)
  }

  /** Splitting and joining on the same separator gives back the field, and
      no piece contains the separator. */
  lemma {:induction false} SplitOnJoin(s: string, sep: char)
    ensures Join(SplitOn(s, sep), sep) == s
    ensures forall k :: 0 <= k < |SplitOn(s, sep)| ==> sep !in SplitOn(s, sep)[k]
    decreases |s|
  {
    if s != [] {
      var rest := SplitOn(s[1..], sep);
      SplitOnJoin(s[1..], sep);
      if s[0] == sep {
        assert SplitOn(s, sep) == [""] + rest;
        assert Join([""] + rest, sep) == "" + [sep] + Join(rest, sep) by {
          assert ([""] + rest)[1..] == rest;
        }
        assert s == [s[0]] + s[1..];
      } else {
        var r := [[s[0]] + rest[0]] + rest[1..];
        assert SplitOn(s, sep) == r;
        if |rest| == 1 {
          assert Join(r, sep) == [s[0]] + rest[0];
          assert Join(rest, sep) == rest[0];
        } else {
          assert r[1..] == rest[1..];
          assert Join(rest, sep) == rest[0] + [sep] + Join(rest[1..], sep);
        }
        assert s == [s[0]] + s[1..];
        forall k | 0 <= k < |r| ensures sep !in r[k] {
          if k == 0 {
            assert sep !in rest[0];
          } else {
            assert r[k] == rest[k];
          }
        }
      }
    }
  }

  /** A field without the separator splits into itself alone. */
  lemma {:induction false} SplitOnAbsent(s: string, sep: char)
    requires sep !in s
    ensures SplitOn(s, sep) == [s]
    decreases |s|
  {
    if s != [] {
      assert sep !in s[1..];
      SplitOnAbsent(s[1..], sep);
      assert s == [s[0]] + s[1..];
    }
  }

  /** The first piece of `s.split(sep)` is the text before the first `sep`
      (all of `s` when there is none). */
  lemma {:induction false} SplitOnFirstPiece(s: string, sep: char)
    ensures SplitOn(s, sep)[0] <= s
    ensures sep !in SplitOn(s, sep)[0]
    ensures |SplitOn(s, sep)[0]| < |s| ==> s[|SplitOn(s, sep)[0]|] == sep
    decreases |s|
  {
    if s != [] && s[0] != sep {
      SplitOnFirstPiece(s[1..], sep);
      var rest := SplitOn(s[1..], sep);
      assert SplitOn(s, sep)[0] == [s[0]] + rest[0];
      assert s == [s[0]] + s[1..];
    }
  }

  /** The first piece is fixed by the text up to the first separator. */
  lemma {:induction false} SplitOnPrefix(a: string, sep: char, b: string)
    requires sep !in a
    ensures SplitOn(a + [sep] + b, sep)[0] == a
    decreases |a|
  {
    var s := a + [sep] + b;
    if a == [] {
      assert s[0] == sep;
    } else {
      assert s[1..] == a[1..] + [sep] + b;
      SplitOnPrefix(a[1..], sep, b);
      assert s[0] == a[0] && a == [a[0]] + a[1..];
    }
  }

  // ---------------------------------------------------------------------------
  // int(...) on decimal digit strings
  // ---------------------------------------------------------------------------

  /** The value of a decimal digit string, most significant digit first. */
  function DigitsValue(s: string): nat
    requires AllDigits(s)
    decreases |s|
  {
    if s == [] then 0
    else DigitsValue(s[..|s| - 1]) * 10 + (s[|s| - 1] as int - '0' as int)
  }

  /** Python's `int(s)`, restricted to plain decimal digit strings: `None`
      stands for the `ValueError` raised on anything else, including `""`. */
  function ParseInt(s: string): (r: Option<nat>)
    ensures r.Some? <==> s != "" && AllDigits(s)
  {
    if s != "" && AllDigits(s) then Some(DigitsValue(s)) else None
  }

  /** The decimal rendering of `n`, the inverse of `ParseInt`. */
  function Show(n: nat): (r: string)
    ensures r != "" && AllDigits(r)
  {
    if n < 10 then [('0' as int + n) as char]
    else Show(n / 10) + [('0' as int + n % 10) as char]
  }

  lemma {:induction false} ParseShow(n: nat)
    ensures ParseInt(Show(n)) == Some(n)
  {
    var s := Show(n);
    if n >= 10 {
      ParseShow(n / 10);
      assert s[..|s| - 1] == Show(n / 10);
      assert DigitsValue(s) == DigitsValue(Show(n / 10)) * 10 + n % 10;
    } else {
      assert DigitsValue(s) == DigitsValue(s[..0]) * 10 + n;
    }
  }
}
