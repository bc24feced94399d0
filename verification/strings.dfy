/** The handful of Python `str` operations the job relies on: `isspace`,
    `strip()`, `upper()`, `split(sep)`, `sep.join(...)` and `str(int)`. */
module Strings {

  /** Python's `str.isspace` for one character: the Unicode characters of
      category Zs or bidirectional class WS, B or S. */
  predicate IsSpace(c: char) {
    || c in {'\t', '\n', '\U{0B}', '\U{0C}', '\r', '\U{1C}', '\U{1D}', '\U{1E}', '\U{1F}', ' '}
    || c in {'\U{85}', '\U{A0}', '\U{1680}', '\U{2028}', '\U{2029}', '\U{202F}', '\U{205F}', '\U{3000}'}
    || '\U{2000}' <= c <= '\U{200A}'
  }

  predicate AllSpace(s: string) {
    forall i :: 0 <= i < |s| ==> IsSpace(s[i])
  }

  /** `lstrip()`: drops the leading whitespace. */
  function TrimStart(s: string): string
    decreases |s|
  {
    if |s| > 0 && IsSpace(s[0]) then TrimStart(s[1..]) else s
  }

  /** `rstrip()`: drops the trailing whitespace. */
  function TrimEnd(s: string): string
    decreases |s|
  {
    if |s| > 0 && IsSpace(s[|s| - 1]) then TrimEnd(s[..|s| - 1]) else s
  }

  /** What `lstrip()` leaves is the suffix of `s` after a run of whitespace,
      and it does not itself start with whitespace. */
  lemma {:induction false} TrimStartIsSuffix(s: string)
    ensures |TrimStart(s)| <= |s| && TrimStart(s) == s[|s| - |TrimStart(s)|..]
    ensures AllSpace(s[..|s| - |TrimStart(s)|])
    ensures TrimStart(s) == [] || !IsSpace(TrimStart(s)[0])
    decreases |s|
  {
    if |s| > 0 && IsSpace(s[0]) {
      TrimStartIsSuffix(s[1..]);
      var n := |s| - |TrimStart(s)|;
      assert s[..n] == [s[0]] + s[1..][..n - 1];
    }
  }

  /** What `rstrip()` leaves is the prefix of `s` before a run of whitespace,
      and it does not itself end with whitespace. */
  lemma {:induction false} TrimEndIsPrefix(s: string)
    ensures |TrimEnd(s)| <= |s| && TrimEnd(s) == s[..|TrimEnd(s)|]
    ensures AllSpace(s[|TrimEnd(s)|..])
    ensures TrimEnd(s) == [] || !IsSpace(TrimEnd(s)[|TrimEnd(s)| - 1])
    decreases |s|
  {
    if |s| > 0 && IsSpace(s[|s| - 1]) {
      TrimEndIsPrefix(s[..|s| - 1]);
      var n := |TrimEnd(s)|;
      assert s[n..] == s[..|s| - 1][n..] + [s[|s| - 1]];
    }
  }

  /** `strip()`: both ends at once. */
  function Strip(s: string): string {
    TrimEnd(TrimStart(s))
  }

  /** `upper()` on one character, restricted to the ASCII letters. */
  function UpperChar(c: char): char {
    if 'a' <= c <= 'z' then (c as int - 32) as char else c
  }

  function Upper(s: string): (r: string)
    ensures |r| == |s|
  {
    seq(|s|, i requires 0 <= i < |s| => UpperChar(s[i]))
  }

  /** `s.split(sep)` with an explicit separator: never empty, and the pieces
      are exactly the text between separators (so `""` gives `[""]`). */
  function Split(s: string, sep: char): (r: seq<string>)
    ensures |r| >= 1
    ensures forall k :: 0 <= k < |r| ==> sep !in r[k]
    decreases |s|
  {
    if |s| == 0 then [""]
    else
      var rest := Split(s[1..], sep);
      if s[0] == sep then [""] + rest
      else [[s[0]] + rest[0]] + rest[1..]
  }

  /** `sep.join(pieces)`. */
  function Join(pieces: seq<string>, sep: char): string
    decreases |pieces|
  {
    if |pieces| == 0 then ""
    else if |pieces| == 1 then pieces[0]
    else pieces[0] + [sep] + Join(pieces[1..], sep)
  }

  function DigitChar(d: nat): char
    requires d < 10
  {
    "0123456789"[d]
  }

  function NatToString(n: nat): string
    decreases n
  {
    if n < 10 then [DigitChar(n)] else NatToString(n / 10) + [DigitChar(n % 10)]
  }

  /** `str(n)` for a Python int. */
  function IntToString(n: int): string {
    if n < 0 then "-" + NatToString(-n) else NatToString(n)
  }

  // ---------------------------------------------------------------------------
  // Split and Join are inverse to one another.

  /** Splitting loses nothing: joining the pieces back gives the input. */
  lemma {:induction false} JoinSplit(s: string, sep: char)
    ensures Join(Split(s, sep), sep) == s
    decreases |s|
  {
    if |s| > 0 {
      var rest := Split(s[1..], sep);
      JoinSplit(s[1..], sep);
      if s[0] == sep {
        assert Split(s, sep) == [""] + rest;
        assert s == [sep] + s[1..];
      } else {
        var pieces := [[s[0]] + rest[0]] + rest[1..];
        assert Split(s, sep) == pieces;
        if |rest| == 1 {
          assert Join(rest, sep) == rest[0];
        } else {
          assert Join(rest, sep) == rest[0] + [sep] + Join(rest[1..], sep);
          assert pieces[1..] == rest[1..];
        }
        assert s == [s[0]] + s[1..];
      }
    }
  }

  /** A separator-free prefix glues onto the first piece of what follows it. */
  lemma {:induction false} SplitSeparatorFreePrefix(a: string, t: string, sep: char)
    requires sep !in a
    ensures Split(a + t, sep) == [a + Split(t, sep)[0]] + Split(t, sep)[1..]
    decreases |a|
  {
    if |a| > 0 {
      SplitSeparatorFreePrefix(a[1..], t, sep);
      assert (a + t)[1..] == a[1..] + t;
      assert (a + t)[0] == a[0];
      assert [a[0]] + (a[1..] + Split(t, sep)[0]) == a + Split(t, sep)[0];
    } else {
      assert a + t == t;
      assert a + Split(t, sep)[0] == Split(t, sep)[0];
      assert Split(t, sep) == [Split(t, sep)[0]] + Split(t, sep)[1..];
    }
  }

  /** Joining separator-free pieces and splitting again recovers the pieces. */
  lemma {:induction false} SplitJoin(pieces: seq<string>, sep: char)
    requires |pieces| >= 1
    requires forall k :: 0 <= k < |pieces| ==> sep !in pieces[k]
    ensures Split(Join(pieces, sep), sep) == pieces
    decreases |pieces|
  {
    if |pieces| == 1 {
      SplitSeparatorFreePrefix(pieces[0], "", sep);
      assert pieces[0] + "" == pieces[0];
    } else {
      var rest := Join(pieces[1..], sep);
      SplitJoin(pieces[1..], sep);
      assert Join(pieces, sep) == pieces[0] + ([sep] + rest);
      SplitSeparatorFreePrefix(pieces[0], [sep] + rest, sep);
      assert ([sep] + rest)[1..] == rest;
      assert Split([sep] + rest, sep) == [""] + pieces[1..];
      assert pieces[0] + "" == pieces[0];
    }
  }

  // ---------------------------------------------------------------------------
  // Facts about strip() and upper().

  lemma {:induction false} TrimStartAppend(p: string, q: string)
    ensures TrimStart(p + q) == if AllSpace(p) then TrimStart(q) else TrimStart(p) + q
    decreases |p|
  {
    if |p| == 0 {
      assert p + q == q;
    } else {
      assert (p + q)[0] == p[0];
      assert (p + q)[1..] == p[1..] + q;
      TrimStartAppend(p[1..], q);
      if IsSpace(p[0]) {
        assert AllSpace(p) <==> AllSpace(p[1..]) by {
          if AllSpace(p[1..]) {
            forall i | 0 <= i < |p| ensures IsSpace(p[i]) {
              if i > 0 { assert p[i] == p[1..][i - 1]; }
            }
          }
        }
      } else {
        assert !AllSpace(p);
      }
    }
  }

  lemma {:induction false} TrimEndAbsorbsSpace(p: string, post: string)
    requires AllSpace(post)
    ensures TrimEnd(p + post) == TrimEnd(p)
    decreases |post|
  {
    if |post| == 0 {
      assert p + post == p;
    } else {
      var n := |p + post|;
      assert (p + post)[n - 1] == post[|post| - 1];
      assert (p + post)[..n - 1] == p + post[..|post| - 1];
      TrimEndAbsorbsSpace(p, post[..|post| - 1]);
    }
  }

  /** Whitespace padding around a piece does not survive `strip()`. */
  lemma StripAbsorbsPadding(pre: string, p: string, post: string)
    requires AllSpace(pre) && AllSpace(post)
    ensures Strip(pre + p + post) == Strip(p)
  {
    assert pre + p + post == pre + (p + post);
    TrimStartAppend(pre, p + post);
    TrimStartAppend(p, post);
    if AllSpace(p) {
      TrimStartIsSuffix(post);
      TrimEndAbsorbsSpace("", TrimStart(post));
      assert "" + TrimStart(post) == TrimStart(post);
      TrimStartAppend(p, "");
      assert p + "" == p;
      assert TrimStart(p) == "";
    } else {
      TrimEndAbsorbsSpace(TrimStart(p), post);
    }
  }

  lemma UpperKeepsSpace(c: char)
    ensures IsSpace(UpperChar(c)) <==> IsSpace(c)
    ensures UpperChar(c) == ',' <==> c == ','
  {
  }

  lemma {:induction false} TrimStartUpper(s: string)
    ensures TrimStart(Upper(s)) == Upper(TrimStart(s))
    decreases |s|
  {
    if |s| > 0 {
      UpperKeepsSpace(s[0]);
      assert Upper(s)[1..] == Upper(s[1..]);
      TrimStartUpper(s[1..]);
    }
  }

  lemma {:induction false} TrimEndUpper(s: string)
    ensures TrimEnd(Upper(s)) == Upper(TrimEnd(s))
    decreases |s|
  {
    if |s| > 0 {
      UpperKeepsSpace(s[|s| - 1]);
      assert Upper(s)[..|s| - 1] == Upper(s[..|s| - 1]);
      TrimEndUpper(s[..|s| - 1]);
    }
  }

  /** Upper-casing and stripping commute. */
  lemma StripUpper(s: string)
    ensures Strip(Upper(s)) == Upper(Strip(s))
  {
    TrimStartUpper(s);
    TrimEndUpper(TrimStart(s));
  }

  lemma UpperIdempotent(s: string)
    ensures Upper(Upper(s)) == Upper(s)
  {
  }

  /** Upper-casing the input upper-cases each piece of a comma split. */
  lemma {:induction false} SplitUpper(s: string)
    ensures |Split(Upper(s), ',')| == |Split(s, ',')|
    ensures forall k :: 0 <= k < |Split(s, ',')| ==> Split(Upper(s), ',')[k] == Upper(Split(s, ',')[k])
    decreases |s|
  {
    if |s| > 0 {
      var c := s[0];
      var rest, upperRest := Split(s[1..], ','), Split(Upper(s[1..]), ',');
      UpperKeepsSpace(c);
      assert Upper(s) == [UpperChar(c)] + Upper(s[1..]);
      assert Upper(s)[1..] == Upper(s[1..]);
      SplitUpper(s[1..]);
      if c == ',' {
        assert Split(s, ',') == [""] + rest;
        assert Split(Upper(s), ',') == [""] + upperRest;
      } else {
        assert Split(s, ',') == [[c] + rest[0]] + rest[1..];
        assert Split(Upper(s), ',') == [[UpperChar(c)] + upperRest[0]] + upperRest[1..];
        assert Upper([c] + rest[0]) == [UpperChar(c)] + Upper(rest[0]);
      }
    }
  }
}
