/** The Python string primitives the rest of the model relies on:
    `str.strip`, `str.split(sep)`, `sep.join(xs)`, `sub in s`, `str(n)`
    and finding the last occurrence of a character. Each is defined the way
    CPython computes it and is related to an independent characterisation
    by the lemmas below. */
module Strings {

  import opened Wrappers

  /** The characters for which Python's `str.isspace()` holds: those whose
      Unicode bidirectional class is WS, B or S, or whose category is Zs. */
  const WhitespaceChars: set<char> :=
    {'\U{20}', '\U{9}', '\U{A}', '\U{B}', '\U{C}', '\U{D}', '\U{1C}', '\U{1D}', '\U{1E}', '\U{1F}', '\U{85}', '\U{A0}', '\U{1680}', '\U{2000}', '\U{2001}', '\U{2002}', '\U{2003}', '\U{2004}', '\U{2005}', '\U{2006}', '\U{2007}', '\U{2008}', '\U{2009}', '\U{200A}', '\U{2028}', '\U{2029}', '\U{202F}', '\U{205F}', '\U{3000}'}

  predicate IsWhitespace(c: char) {
    c in WhitespaceChars
  }

  predicate AllWhitespace(s: string) {
    forall i :: 0 <= i < |s| ==> IsWhitespace(s[i])
  }

  /** A string that `strip` leaves as it is: empty, or with a
      non-whitespace character at each end. */
  predicate IsStripped(s: string) {
    |s| == 0 || (!IsWhitespace(s[0]) && !IsWhitespace(s[|s| - 1]))
  }

  /** The scan behind `lstrip`: the first position at or after `k` that
      does not hold whitespace, or `|s|`. */
  function SkipLeft(s: string, k: nat): (n: nat)
    requires k <= |s|
    ensures k <= n <= |s|
    ensures forall i :: k <= i < n ==> IsWhitespace(s[i])
    ensures n == |s| || !IsWhitespace(s[n])
    decreases |s| - k
  {
    if k < |s| && IsWhitespace(s[k]) then SkipLeft(s, k + 1) else k
  }

  /** The scan behind `rstrip`, stopping at `lo`: the end of the last
      non-whitespace character in `s[lo..k]`, or `lo`. */
  function SkipRight(s: string, lo: nat, k: nat): (n: nat)
    requires lo <= k <= |s|
    ensures lo <= n <= k
    ensures forall i :: n <= i < k ==> IsWhitespace(s[i])
    ensures n == lo || !IsWhitespace(s[n - 1])
    decreases k
  {
    if k > lo && IsWhitespace(s[k - 1]) then SkipRight(s, lo, k - 1) else k
  }

  /** Python's `s.strip()`: the longest middle part of `s` that starts and
      ends with a non-whitespace character. */
  function Strip(s: string): (r: string)
    ensures IsStripped(r)
  {
    var i := SkipLeft(s, 0);
    s[i..SkipRight(s, i, |s|)]
  }

  /** What `strip` removes is whitespace at both ends and nothing else. */
  lemma StripCutsWhitespace(s: string)
    ensures exists i, j :: 0 <= i <= j <= |s| && Strip(s) == s[i..j]
                           && AllWhitespace(s[..i]) && AllWhitespace(s[j..])
  {
    var i := SkipLeft(s, 0);
    var j := SkipRight(s, i, |s|);
    assert AllWhitespace(s[..i]) by {
      forall k | 0 <= k < i ensures IsWhitespace(s[..i][k]) {
        assert s[..i][k] == s[k];
      }
    }
    assert AllWhitespace(s[j..]) by {
      forall k | 0 <= k < |s| - j ensures IsWhitespace(s[j..][k]) {
        assert s[j..][k] == s[j + k];
      }
    }
  }

  /** A string `strip` leaves unchanged is one that is already stripped. */
  lemma {:induction false} StripFixpoint(s: string)
    requires IsStripped(s)
    ensures Strip(s) == s
  {
    if |s| > 0 {
      assert SkipLeft(s, 0) == 0;
      assert SkipRight(s, 0, |s|) == |s|;
    }
  }

  /** A string of whitespace strips to nothing. */
  lemma {:induction false} StripBlank(s: string)
    requires AllWhitespace(s)
    ensures Strip(s) == ""
  {
    assert SkipLeft(s, 0) == |s|;
  }

  /** Visible ASCII characters are not whitespace. */
  lemma VisibleAsciiNotWhitespace(c: char)
    requires '!' <= c <= '~'
    ensures !IsWhitespace(c)
  {
  }

  /** A string with a character outside the whitespace set keeps it, so
      strips to something non-empty. */
  lemma StripKeepsContent(s: string, k: nat)
    requires k < |s| && !IsWhitespace(s[k])
    ensures |Strip(s)| > 0
  {
    var i := SkipLeft(s, 0);
    assert i <= k;
    assert SkipRight(s, i, |s|) > k;
  }

  /** `pat` occurs in `s` starting at index `i`. */
  ghost predicate OccursAt(s: string, pat: string, i: int) {
    0 <= i && i + |pat| <= |s| && s[i..i + |pat|] == pat
  }

  /** Python's `pat in s`, computed by trying each start position in turn. */
  predicate Contains(s: string, pat: string)
    decreases |s|
  {
    |pat| <= |s| && (s[..|pat|] == pat || Contains(s[1..], pat))
  }

  /** `Contains` agrees with the positional definition of an occurrence. */
  lemma {:induction false} ContainsIff(s: string, pat: string)
    ensures Contains(s, pat) <==> exists i :: OccursAt(s, pat, i)
    decreases |s|
  {
    if |pat| <= |s| {
      if s[..|pat|] == pat {
        assert OccursAt(s, pat, 0);
      } else {
        ContainsIff(s[1..], pat);
        if Contains(s[1..], pat) {
          var i :| OccursAt(s[1..], pat, i);
          assert s[i + 1..i + 1 + |pat|] == s[1..][i..i + |pat|];
          assert OccursAt(s, pat, i + 1);
        }
        if i :| OccursAt(s, pat, i) {
          assert i != 0;
          assert s[1..][i - 1..i - 1 + |pat|] == s[i..i + |pat|];
          assert OccursAt(s[1..], pat, i - 1);
        }
      }
    }
  }

  /** For a single character, `Contains` is plain membership. */
  lemma {:induction false} ContainsChar(s: string, c: char)
    ensures Contains(s, [c]) <==> c in s
  {
    ContainsIff(s, [c]);
    if c in s {
      var i :| 0 <= i < |s| && s[i] == c;
      assert OccursAt(s, [c], i);
    }
    if i :| OccursAt(s, [c], i) {
      assert s[i] == c;
    }
  }

  /** Python's `sep.join(parts)`. */
  function Join(parts: seq<string>, sep: string): string
  {
    if |parts| == 0 then ""
    else if |parts| == 1 then parts[0]
    else parts[0] + sep + Join(parts[1..], sep)
  }

  /** Joining a list of two or more strings puts the separator after the
      first. */
  lemma JoinCons(x: string, rest: seq<string>, sep: string)
    requires |rest| > 0
    ensures Join([x] + rest, sep) == x + sep + Join(rest, sep)
  {
    assert ([x] + rest)[1..] == rest;
  }

  /** Joining six strings spelled out. */
  lemma JoinSix(w: seq<string>, sep: string)
    requires |w| == 6
    ensures Join(w, sep) == w[0] + sep + (w[1] + sep + (w[2] + sep + (w[3] + sep + (w[4] + sep + w[5]))))
  {
    assert w == [w[0]] + ([w[1]] + ([w[2]] + ([w[3]] + ([w[4]] + [w[5]]))));
    JoinCons(w[0], w[1..], sep);
    JoinCons(w[1], w[2..], sep);
    JoinCons(w[2], w[3..], sep);
    JoinCons(w[3], w[4..], sep);
    JoinCons(w[4], w[5..], sep);
    assert w[1..] == [w[1]] + w[2..];
    assert w[2..] == [w[2]] + w[3..];
    assert w[3..] == [w[3]] + w[4..];
    assert w[4..] == [w[4]] + w[5..];
    assert w[5..] == [w[5]];
  }

  /** The scanning loop behind Python's `s.split(sep)`: `cur` is the piece
      being accumulated. At each position either `sep` starts there (the
      piece is closed and the separator skipped) or one more character joins
      the piece. */
  function SplitFrom(s: string, sep: string, cur: string): (r: seq<string>)
    requires |sep| > 0
    ensures |r| >= 1
    decreases |s|
  {
    if |s| == 0 then [cur]
    else if |sep| <= |s| && s[..|sep|] == sep then [cur] + SplitFrom(s[|sep|..], sep, "")
    else SplitFrom(s[1..], sep, cur + [s[0]])
  }

  /** Python's `s.split(sep)` for a non-empty separator (CPython raises
      ValueError on an empty one). */
  function Split(s: string, sep: string): (r: seq<string>)
    requires |sep| > 0
    ensures |r| >= 1
  {
    SplitFrom(s, sep, "")
  }

  lemma {:induction false} JoinSplitFrom(s: string, sep: string, cur: string)
    requires |sep| > 0
    ensures Join(SplitFrom(s, sep, cur), sep) == cur + s
    decreases |s|
  {
    if |s| == 0 {
    } else if |sep| <= |s| && s[..|sep|] == sep {
      var rest := SplitFrom(s[|sep|..], sep, "");
      JoinSplitFrom(s[|sep|..], sep, "");
      assert [cur] + rest == SplitFrom(s, sep, cur);
      assert s == sep + s[|sep|..];
    } else {
      JoinSplitFrom(s[1..], sep, cur + [s[0]]);
      assert cur + [s[0]] + s[1..] == cur + s;
    }
  }

  /** Joining the pieces of a split with the same separator gives back the
      original string, for every string. */
  lemma {:induction false} JoinSplit(s: string, sep: string)
    requires |sep| > 0
    ensures Join(Split(s, sep), sep) == s
  {
    JoinSplitFrom(s, sep, "");
  }

  /** No proper prefix of `sep` is also a suffix of it, so two occurrences
      of `sep` can never overlap ("; ", " " and "|" are all of this kind). */
  predicate Unbordered(sep: string) {
    forall k :: 0 < k < |sep| ==> sep[k..] != sep[..|sep| - k]
  }

  /** Scanning a piece that does not contain `sep`, followed by a string that
      is empty or starts with `sep`, just appends the whole piece. */
  lemma {:induction false} SplitFromPiece(p: string, t: string, sep: string, cur: string)
    requires |sep| > 0 && Unbordered(sep)
    requires !Contains(p, sep)
    requires |t| == 0 || (|sep| <= |t| && t[..|sep|] == sep)
    ensures SplitFrom(p + t, sep, cur) == SplitFrom(t, sep, cur + p)
    decreases |p|
  {
    if |p| == 0 {
      assert p + t == t;
      assert cur + p == cur;
    } else {
      var s := p + t;
      if |sep| <= |p| {
        assert s[..|sep|] == p[..|sep|];
      } else if |t| > 0 && |sep| <= |s| {
        var k := |p|;
        assert sep[k..] != sep[..|sep| - k];
        assert t[..|sep| - k] == sep[..|sep| - k];
        assert s[..|sep|][k..] == t[..|sep| - k];
      }
      assert !(|sep| <= |s| && s[..|sep|] == sep);
      assert !Contains(p[1..], sep);
      assert s[1..] == p[1..] + t;
      SplitFromPiece(p[1..], t, sep, cur + [p[0]]);
      assert cur + [p[0]] + p[1..] == cur + p;
    }
  }

  /** Splitting a join gives back the parts, provided there is at least one
      part, no part contains the separator and occurrences of the separator
      cannot overlap. */
  lemma {:induction false} SplitJoin(parts: seq<string>, sep: string)
    requires |sep| > 0 && Unbordered(sep)
    requires |parts| > 0
    requires forall i :: 0 <= i < |parts| ==> !Contains(parts[i], sep)
    ensures Split(Join(parts, sep), sep) == parts
  {
    SplitJoinFrom(parts, sep);
  }

  lemma {:induction false} SplitJoinFrom(parts: seq<string>, sep: string)
    requires |sep| > 0 && Unbordered(sep)
    requires |parts| > 0
    requires forall i :: 0 <= i < |parts| ==> !Contains(parts[i], sep)
    ensures SplitFrom(Join(parts, sep), sep, "") == parts
    decreases |parts|
  {
    if |parts| == 1 {
      SplitFromPiece(parts[0], "", sep, "");
      assert parts[0] + "" == parts[0];
      assert "" + parts[0] == parts[0];
      assert SplitFrom("", sep, parts[0]) == [parts[0]];
    } else {
      var rest := Join(parts[1..], sep);
      var t := sep + rest;
      assert Join(parts, sep) == parts[0] + t;
      assert t[..|sep|] == sep;
      SplitFromPiece(parts[0], t, sep, "");
      assert "" + parts[0] == parts[0];
      assert t[|sep|..] == rest;
      SplitJoinFrom(parts[1..], sep);
      assert SplitFrom(t, sep, parts[0]) == [parts[0]] + parts[1..];
    }
  }

  /** The value of a digit character. */
  function DigitValue(c: char): nat
    requires '0' <= c <= '9'
  {
    (c as int - '0' as int) as nat
  }

  function DigitChar(d: nat): (c: char)
    requires d < 10
    ensures '0' <= c <= '9' && DigitValue(c) == d
  {
    ('0' as int + d) as char
  }

  predicate AllDigits(s: string) {
    forall i :: 0 <= i < |s| ==> '0' <= s[i] <= '9'
  }

  /** Python's `str(n)` for a natural number. */
  function NatToString(n: nat): (r: string)
    ensures |r| > 0 && AllDigits(r)
  {
    if n < 10 then [DigitChar(n)] else NatToString(n / 10) + [DigitChar(n % 10)]
  }

  /** Python's `str(n)` for any integer. */
  function IntToString(n: int): string
  {
    if n < 0 then "-" + NatToString(-n) else NatToString(n)
  }

  /** Reads a string of decimal digits back as a number. */
  function ParseDigits(s: string): nat
    requires AllDigits(s)
  {
    if |s| == 0 then 0 else ParseDigits(s[..|s| - 1]) * 10 + DigitValue(s[|s| - 1])
  }

  /** `str(n)` is decimal notation: reading it back gives `n`. */
  lemma {:induction false} NatToStringRoundTrip(n: nat)
    ensures ParseDigits(NatToString(n)) == n
  {
    if n >= 10 {
      var s := NatToString(n);
      assert s[..|s| - 1] == NatToString(n / 10);
      NatToStringRoundTrip(n / 10);
    }
  }

  /** The index of the last occurrence of `c` in `s`. */
  function LastIndexOf(s: string, c: char): (r: Option<nat>)
    ensures r.None? ==> c !in s
    ensures r.Some? ==> r.value < |s| && s[r.value] == c && c !in s[r.value + 1..]
  {
    if |s| == 0 then None
    else if s[|s| - 1] == c then Some(|s| - 1)
    else
      var r := LastIndexOf(s[..|s| - 1], c);
      assert s[..|s| - 1] + [s[|s| - 1]] == s;
      r
  }


  /** `LastIndexOf` finds the one position holding `c` with no `c` after
      it. */
  lemma LastIndexOfUnique(s: string, c: char, i: nat)
    requires i < |s| && s[i] == c && c !in s[i + 1..]
    ensures LastIndexOf(s, c) == Some(i)
  {
    var r := LastIndexOf(s, c);
    assert c in s;
    var j := r.value;
    forall k | i < k < |s| ensures s[k] != c {
      assert s[k] == s[i + 1..][k - i - 1];
    }
    forall k | j < k < |s| ensures s[k] != c {
      assert s[k] == s[j + 1..][k - j - 1];
    }
  }

  /** A character absent from every position from `i` on is absent from
      the suffix there. */
  lemma NotInSuffix(s: string, c: char, i: nat)
    requires i <= |s|
    requires forall m :: i <= m < |s| ==> s[m] != c
    ensures c !in s[i..]
  {
    forall m | 0 <= m < |s| - i ensures s[i..][m] != c {
      assert s[i..][m] == s[i + m];
    }
  }

  /** One step of a split on a single character. */
  lemma SplitFromStep(s: string, c: char, cur: string)
    requires |s| > 0
    ensures SplitFrom(s, [c], cur) == (if s[0] == c then [cur] + SplitFrom(s[1..], [c], "")
                                       else SplitFrom(s[1..], [c], cur + [s[0]]))
  {
    assert s[..1] == [s[0]];
  }

  /** The last occurrence of `c` in `s`, found from the occurrences in its
      tail. */
  lemma LastIndexOfTail(s: string, c: char)
    requires |s| > 0
    ensures LastIndexOf(s, c) == (if c in s[1..] then Some(LastIndexOf(s[1..], c).value + 1)
                                  else if s[0] == c then Some(0) else None)
  {
    var t := s[1..];
    if c in t {
      var i := LastIndexOf(t, c).value;
      assert s[i + 1] == t[i];
      assert s[i + 2..] == t[i + 1..];
      LastIndexOfUnique(s, c, i + 1);
    } else if s[0] == c {
      assert s[1..] == t;
      LastIndexOfUnique(s, c, 0);
    } else {
      assert s == [s[0]] + t;
      assert c !in s;
    }
  }

  /** Scanning text free of a one-character separator yields one piece. */
  lemma {:induction false} SplitFromNoSeparator(s: string, c: char, cur: string)
    requires c !in s
    ensures SplitFrom(s, [c], cur) == [cur + s]
    decreases |s|
  {
    if |s| > 0 {
      assert s[0] != c;
      SplitFromStep(s, c, cur);
      assert c !in s[1..] by {
        forall k | 0 <= k < |s| - 1 ensures s[1..][k] != c {
          assert s[1..][k] == s[k + 1];
        }
      }
      SplitFromNoSeparator(s[1..], c, cur + [s[0]]);
      assert s == [s[0]] + s[1..];
      assert cur + [s[0]] + s[1..] == cur + s;
    } else {
      assert cur + s == cur;
    }
  }

  /** A separator at the head starts a new piece: the pieces after it are
      those of the tail. */
  lemma SplitFromAfterSeparator(s: string, c: char, cur: string)
    requires |s| > 0 && s[0] == c
    ensures var r := SplitFrom(s, [c], cur);
            var q := SplitFrom(s[1..], [c], "");
            |r| == |q| + 1 && r[|r| - 1] == q[|q| - 1]
  {
    SplitFromStep(s, c, cur);
  }

  /** Scanning text that holds a one-character separator yields at least two
      pieces, the last being what follows the separator's last occurrence. */
  lemma {:induction false} SplitFromLastPiece(s: string, c: char, cur: string)
    requires c in s
    ensures var r := SplitFrom(s, [c], cur);
            |r| >= 2 && r[|r| - 1] == s[LastIndexOf(s, c).value + 1..]
    decreases |s|, 1
  {
    var t := s[1..];
    if s[0] == c && c in t {
      SplitFromAfterSeparator(s, c, cur);
      SplitFromLastPiece(t, c, "");
      LastInTail(s, c);
    } else if s[0] == c {
      SplitFromAfterSeparator(s, c, cur);
      SplitFromNoSeparator(t, c, "");
      LastIndexOfTail(s, c);
      assert "" + t == t;
    } else {
      SplitFromLastPieceSkip(s, c, cur);
    }
  }

  /** A head that is not the separator joins the current piece; the
      separator then occurs in the tail if at all. */
  lemma SplitFromSkip(s: string, c: char, cur: string)
    requires |s| > 0 && s[0] != c
    ensures SplitFrom(s, [c], cur) == SplitFrom(s[1..], [c], cur + [s[0]])
    ensures c in s ==> c in s[1..]
  {
    assert s[..1] == [s[0]];
    assert s == [s[0]] + s[1..];
  }

  /** The case of `SplitFromLastPiece` where the head is not the separator. */
  lemma {:induction false} SplitFromLastPieceSkip(s: string, c: char, cur: string)
    requires c in s && s[0] != c
    ensures var r := SplitFrom(s, [c], cur);
            |r| >= 2 && r[|r| - 1] == s[LastIndexOf(s, c).value + 1..]
    decreases |s|, 0
  {
    var t := s[1..];
    SplitFromSkip(s, c, cur);
    SplitFromLastPiece(t, c, cur + [s[0]]);
    LastInTail(s, c);
  }

  /** When the tail holds `c`, the suffix after the last `c` of the whole is
      the suffix after the last `c` of the tail. */
  lemma LastInTail(s: string, c: char)
    requires |s| > 0 && c in s[1..]
    ensures LastIndexOf(s, c).Some?
    ensures s[LastIndexOf(s, c).value + 1..] == s[1..][LastIndexOf(s[1..], c).value + 1..]
  {
    LastIndexOfTail(s, c);
    TailSuffix(s, LastIndexOf(s[1..], c).value + 1);
  }

  /** A suffix of the tail is a suffix of the whole. */
  lemma TailSuffix(s: string, i: nat)
    requires 0 < |s| && i <= |s| - 1
    ensures s[1..][i..] == s[i + 1..]
  {
  }

  /** Splitting on a character the text lacks gives the text alone; on one
      it contains, at least two pieces, the last being what follows the
      character's last occurrence. */
  lemma SplitOnChar(s: string, c: char)
    ensures LastIndexOf(s, c).None? ==> Split(s, [c]) == [s]
    ensures LastIndexOf(s, c).Some? ==>
              var r := Split(s, [c]);
              |r| >= 2 && r[|r| - 1] == s[LastIndexOf(s, c).value + 1..]
  {
    if c in s {
      SplitFromLastPiece(s, c, "");
    } else {
      SplitFromNoSeparator(s, c, "");
      assert "" + s == s;
    }
  }
}
