/** The Python string primitives the application builds its text from:
    `str.split` on one character, `str.strip`, `str.join`, `str(int)`,
    lower-casing of identifiers, and a notion of a word occurring inside a
    text. */
module Text {
  import opened Wrappers

  /** Number of occurrences of the character `c` in `s`. */
  function CountChar(s: string, c: char): nat
  {
    if |s| == 0 then 0 else (if s[0] == c then 1 else 0) + CountChar(s[1..], c)
  }

  lemma {:induction false} CountCharConcat(a: string, b: string, c: char)
    ensures CountChar(a + b, c) == CountChar(a, c) + CountChar(b, c)
    decreases |a|
  {
    if |a| == 0 {
      assert a + b == b;
    } else {
      assert (a + b)[1..] == a[1..] + b;
      CountCharConcat(a[1..], b, c);
    }
  }

  lemma {:induction false} CountCharAbsent(s: string, c: char)
    requires c !in s
    ensures CountChar(s, c) == 0
    decreases |s|
  {
    if |s| > 0 {
      assert s[0] != c;
      assert c !in s[1..];
      CountCharAbsent(s[1..], c);
    }
  }

  /** `sep.join(xs)`. */
  function Join(sep: string, xs: seq<string>): string
  {
    if |xs| == 0 then ""
    else if |xs| == 1 then xs[0]
    else xs[0] + sep + Join(sep, xs[1..])
  }

  /** `s.split(c)` for a one-character separator: there is always one piece
      more than there are separators, and empty pieces are kept. */
  function Split(s: string, c: char): (pieces: seq<string>)
    ensures |pieces| == CountChar(s, c) + 1
    ensures forall i :: 0 <= i < |pieces| ==> c !in pieces[i]
    decreases |s|
  {
    if |s| == 0 then [""]
    else
      var rest := Split(s[1..], c);
      if s[0] == c then [""] + rest
      else [[s[0]] + rest[0]] + rest[1..]
  }

  /** Joining the pieces back with the separator gives the original text. */
  lemma {:induction false} JoinSplit(s: string, c: char)
    ensures Join([c], Split(s, c)) == s
    decreases |s|
  {
    if |s| > 0 {
      var rest := Split(s[1..], c);
      JoinSplit(s[1..], c);
      assert s == [s[0]] + s[1..];
      if s[0] == c {
        assert ([""] + rest)[1..] == rest;
      } else if |rest| > 1 {
        var head := [s[0]] + rest[0];
        assert ([head] + rest[1..])[1..] == rest[1..];
      }
    }
  }

  lemma {:induction false} SplitWithoutSeparator(a: string, c: char)
    requires c !in a
    ensures Split(a, c) == [a]
    decreases |a|
  {
    if |a| > 0 {
      SplitWithoutSeparator(a[1..], c);
      assert [a[0]] + a[1..] == a;
    }
  }

  lemma {:induction false} SplitFirstPiece(a: string, b: string, c: char)
    requires c !in a
    ensures Split(a + [c] + b, c) == [a] + Split(b, c)
    decreases |a|
  {
    var s := a + [c] + b;
    if |a| == 0 {
      assert s == [c] + b;
      assert s[1..] == b;
    } else {
      assert s[0] == a[0];
      assert s[1..] == a[1..] + [c] + b;
      SplitFirstPiece(a[1..], b, c);
      assert [a[0]] + a[1..] == a;
    }
  }

  /** Splitting a join of separator-free pieces gives the pieces back. */
  lemma {:induction false} SplitJoin(xs: seq<string>, c: char)
    requires |xs| >= 1
    requires forall i :: 0 <= i < |xs| ==> c !in xs[i]
    ensures Split(Join([c], xs), c) == xs
    decreases |xs|
  {
    if |xs| == 1 {
      SplitWithoutSeparator(xs[0], c);
    } else {
      SplitJoin(xs[1..], c);
      SplitFirstPiece(xs[0], Join([c], xs[1..]), c);
      assert [xs[0]] + xs[1..] == xs;
    }
  }

  /** The pieces that splitting `p + (c + " ").join(xs)` at `c` yields:
      the first carries the prefix `p`, every later one the space that
      followed its separator. */
  function SpacedPieces(p: string, xs: seq<string>): (r: seq<string>)
    requires |xs| >= 1
  {
    seq(|xs|, i requires 0 <= i < |xs| => if i == 0 then p + xs[0] else " " + xs[i])
  }

  lemma {:induction false} SplitJoinSpaced(p: string, xs: seq<string>, c: char)
    requires c !in p && c != ' '
    requires |xs| >= 1 && forall i :: 0 <= i < |xs| ==> c !in xs[i]
    ensures Split(p + Join([c, ' '], xs), c) == SpacedPieces(p, xs)
    decreases |xs|
  {
    if |xs| == 1 {
      SplitWithoutSeparator(p + xs[0], c);
    } else {
      var rest := Join([c, ' '], xs[1..]);
      JoinSpacedCons(p, xs, c);
      SplitFirstPiece(p + xs[0], " " + rest, c);
      SplitJoinSpaced(" ", xs[1..], c);
      SpacedPiecesCons(p, xs);
    }
  }

  lemma JoinSpacedCons(p: string, xs: seq<string>, c: char)
    requires |xs| > 1
    ensures p + Join([c, ' '], xs) == (p + xs[0]) + [c] + (" " + Join([c, ' '], xs[1..]))
  {
    var rest := Join([c, ' '], xs[1..]);
    assert Join([c, ' '], xs) == xs[0] + [c, ' '] + rest;
  }

  lemma SpacedPiecesCons(p: string, xs: seq<string>)
    requires |xs| > 1
    ensures [p + xs[0]] + SpacedPieces(" ", xs[1..]) == SpacedPieces(p, xs)
  {
  }

  /** Stripping the spaced pieces of stripped texts gives the texts back. */
  lemma StripSpacedPieces(p: string, xs: seq<string>)
    requires AllSpace(p) && |xs| >= 1
    requires forall i :: 0 <= i < |xs| ==> IsStripped(xs[i])
    ensures forall i :: 0 <= i < |xs| ==> Strip(SpacedPieces(p, xs)[i]) == xs[i]
  {
    var pieces := SpacedPieces(p, xs);
    forall i | 0 <= i < |xs|
      ensures Strip(pieces[i]) == xs[i]
    {
      var pad := if i == 0 then p else " ";
      assert AllSpace(pad);
      StripSurrounded(pad, xs[i], "");
      assert pad + xs[i] + "" == pieces[i];
    }
  }

  /** A character absent from every piece and from the separator is absent
      from the join. */
  lemma {:induction false} JoinAvoids(sep: string, xs: seq<string>, ch: char)
    requires ch !in sep
    requires forall i :: 0 <= i < |xs| ==> ch !in xs[i]
    ensures ch !in Join(sep, xs)
    decreases |xs|
  {
    if |xs| > 1 {
      JoinAvoids(sep, xs[1..], ch);
    }
  }

  /** Python's `str.isspace` for one character: the ASCII controls TAB to CR,
      the separators 0x1C-0x1F, SPACE, NEL, NO-BREAK SPACE and the Unicode
      space separators. */
  predicate IsSpace(ch: char)
  {
    var n := ch as int;
    || 9 <= n <= 13
    || 28 <= n <= 32
    || n == 0x85 || n == 0xA0 || n == 0x1680
    || 0x2000 <= n <= 0x200A
    || n == 0x2028 || n == 0x2029 || n == 0x202F || n == 0x205F || n == 0x3000
  }

  predicate AllSpace(s: string)
  {
    forall k :: 0 <= k < |s| ==> IsSpace(s[k])
  }

  /** Neither end of `s` is whitespace. */
  predicate IsStripped(s: string)
  {
    |s| == 0 || (!IsSpace(s[0]) && !IsSpace(s[|s| - 1]))
  }

  /** `s.lstrip()`: drops exactly the leading whitespace. */
  function TrimStart(s: string): (r: string)
    ensures |r| <= |s| && r == s[|s| - |r|..]
    ensures AllSpace(s[..|s| - |r|])
    ensures |r| == 0 || !IsSpace(r[0])
    decreases |s|
  {
    if |s| > 0 && IsSpace(s[0]) then TrimStart(s[1..]) else s
  }

  /** `s.rstrip()`: drops exactly the trailing whitespace. */
  function TrimEnd(s: string): (r: string)
    ensures |r| <= |s| && r == s[..|r|]
    ensures AllSpace(s[|r|..])
    ensures |r| == 0 || !IsSpace(r[|r| - 1])
    decreases |s|
  {
    if |s| > 0 && IsSpace(s[|s| - 1]) then TrimEnd(s[..|s| - 1]) else s
  }

  /** `r` sits in `s` from position `i` on, and all of `s` around it is
      whitespace. */
  predicate Middle(s: string, i: nat, r: string)
  {
    && i + |r| <= |s|
    && s[i..i + |r|] == r
    && AllSpace(s[..i])
    && AllSpace(s[i + |r|..])
  }

  /** `s.strip()`: the result is the middle of `s`, and all that was cut
      off on either side is whitespace. */
  function Strip(s: string): (r: string)
    ensures IsStripped(r)
    ensures Middle(s, |s| - |TrimStart(s)|, r)
  {
    var t := TrimStart(s);
    var r := TrimEnd(t);
    StripCuts(s, t, r);
    r
  }

  /** What is left after cutting whitespace off the front of `s` (leaving
      `t`) and then off the back of `t` (leaving `r`). */
  lemma StripCuts(s: string, t: string, r: string)
    requires |t| <= |s| && t == s[|s| - |t|..] && AllSpace(s[..|s| - |t|])
    requires |t| == 0 || !IsSpace(t[0])
    requires |r| <= |t| && r == t[..|r|] && AllSpace(t[|r|..])
    requires |r| == 0 || !IsSpace(r[|r| - 1])
    ensures IsStripped(r)
    ensures Middle(s, |s| - |t|, r)
  {
    var i := |s| - |t|;
    if |r| > 0 {
      assert r[0] == t[0];
    }
    assert s[i..i + |r|] == r;
    assert s[i + |r|..] == t[|r|..];
  }

  lemma {:induction false} TrimStartAfterSpace(a: string, t: string)
    requires AllSpace(a)
    requires |t| == 0 || !IsSpace(t[0])
    ensures TrimStart(a + t) == t
    decreases |a|
  {
    if |a| > 0 {
      assert (a + t)[0] == a[0];
      assert (a + t)[1..] == a[1..] + t;
      TrimStartAfterSpace(a[1..], t);
    } else {
      assert a + t == t;
    }
  }

  lemma {:induction false} TrimEndBeforeSpace(t: string, b: string)
    requires AllSpace(b)
    requires |t| == 0 || !IsSpace(t[|t| - 1])
    ensures TrimEnd(t + b) == t
    decreases |b|
  {
    if |b| > 0 {
      var s := t + b;
      assert s[|s| - 1] == b[|b| - 1];
      assert s[..|s| - 1] == t + b[..|b| - 1];
      TrimEndBeforeSpace(t, b[..|b| - 1]);
    } else {
      assert t + b == t;
    }
  }

  /** Strip removes whitespace around a text and nothing else: whatever
      whitespace surrounds a stripped text, stripping gives that text. */
  lemma StripSurrounded(a: string, m: string, b: string)
    requires AllSpace(a) && AllSpace(b) && IsStripped(m)
    ensures Strip(a + m + b) == m
  {
    assert a + m + b == a + (m + b);
    if |m| == 0 {
      assert a + (m + b) == a + b + "";
      assert AllSpace(a + b);
      TrimStartAfterSpace(a + b, "");
    } else {
      TrimStartAfterSpace(a, m + b);
      TrimEndBeforeSpace(m, b);
    }
  }

  /** Stripping never introduces a character. */
  lemma StripKeepsOut(s: string, ch: char)
    requires ch !in s
    ensures ch !in Strip(s)
  {
    var r := Strip(s);
    var i := |s| - |TrimStart(s)|;
    forall k | 0 <= k < |r| ensures r[k] != ch {
      assert r[k] == s[i + k];
    }
  }

  predicate IsDigit(ch: char)
  {
    '0' <= ch <= '9'
  }

  predicate AllDigits(s: string)
  {
    forall k :: 0 <= k < |s| ==> IsDigit(s[k])
  }

  function DigitChar(d: nat): (ch: char)
    requires d < 10
  {
    ('0' as int + d) as char
  }

  /** `str(n)` for a non-negative integer: decimal digits without a
      leading zero. */
  function NatText(n: nat): (r: string)
    ensures |r| >= 1 && AllDigits(r)
    ensures n == 0 <==> r == "0"
    ensures |r| == 1 || r[0] != '0'
  {
    if n < 10 then [DigitChar(n)] else NatText(n / 10) + [DigitChar(n % 10)]
  }

  /** The value of a string of decimal digits. */
  function ParseDigits(s: string): nat
    requires AllDigits(s)
  {
    if |s| == 0 then 0
    else
      var last := s[|s| - 1];
      assert IsDigit(last);
      ParseDigits(s[..|s| - 1]) * 10 + ((last as int) - ('0' as int))
  }

  lemma {:induction false} NatTextRoundTrip(n: nat)
    ensures ParseDigits(NatText(n)) == n
  {
    if n >= 10 {
      var r := NatText(n);
      assert r[..|r| - 1] == NatText(n / 10);
      NatTextRoundTrip(n / 10);
    }
  }

  /** `str(y)` for a Python `int`. */
  function IntText(y: int): string
  {
    if y < 0 then "-" + NatText(-y) else NatText(y)
  }

  /** `int(s)` restricted to optional minus sign and decimal digits. */
  function ParseInt(s: string): Option<int>
  {
    if |s| == 0 then None
    else if s[0] == '-' then
      (if |s| > 1 && AllDigits(s[1..]) then Some(-(ParseDigits(s[1..]) as int)) else None)
    else if AllDigits(s) then Some(ParseDigits(s))
    else None
  }

  /** The decimal text of an integer reads back as that integer. */
  lemma IntTextRoundTrip(y: int)
    ensures ParseInt(IntText(y)) == Some(y)
  {
    var r := IntText(y);
    if y < 0 {
      var digits := NatText(-y);
      assert r == "-" + digits;
      assert r[0] == '-' && r[1..] == digits;
      NatTextRoundTrip(-y);
    } else {
      assert r == NatText(y);
      assert IsDigit(r[0]);
      NatTextRoundTrip(y);
    }
  }

  /** How PostgreSQL folds an unquoted identifier (ASCII letters only). */
  function LowerChar(ch: char): char
  {
    if 'A' <= ch <= 'Z' then (ch as int + 32) as char else ch
  }

  function Lower(s: string): (r: string)
    ensures |r| == |s|
    ensures forall k :: 0 <= k < |s| ==> r[k] == LowerChar(s[k])
  {
    if |s| == 0 then "" else [LowerChar(s[0])] + Lower(s[1..])
  }

  /** The word `w` starts at position `i` of `s`. */
  predicate OccursAt(s: string, w: string, i: int)
  {
    0 <= i && i + |w| <= |s| && s[i..i + |w|] == w
  }

  ghost predicate Absent(s: string, w: string)
  {
    forall i :: !OccursAt(s, w, i)
  }

  lemma AbsentWithoutFirstChar(s: string, w: string)
    requires |w| > 0 && w[0] !in s
    ensures Absent(s, w)
  {
    forall i
      ensures !OccursAt(s, w, i)
    {
      if 0 <= i && i + |w| <= |s| {
        assert s[i..i + |w|][0] == s[i];
      }
    }
  }

  /** A word absent from both halves is absent from their concatenation,
      provided one of the two characters at the seam is not in the word. */
  lemma AbsentConcat(a: string, b: string, w: string)
    requires Absent(a, w) && Absent(b, w)
    requires |a| == 0 || |b| == 0 || a[|a| - 1] !in w || b[0] !in w
    ensures Absent(a + b, w)
  {
    var s := a + b;
    forall i | 0 <= i && i + |w| <= |s|
      ensures !OccursAt(s, w, i)
    {
      var window := s[i..i + |w|];
      if i + |w| <= |a| {
        assert window == a[i..i + |w|];
        assert !OccursAt(a, w, i);
      } else if i >= |a| {
        assert window == b[i - |a|..i - |a| + |w|];
        assert !OccursAt(b, w, i - |a|);
      } else {
        assert window[|a| - 1 - i] == a[|a| - 1];
        assert window[|a| - i] == b[0];
      }
    }
  }

  /** In `w + t`, where `t` does not contain `w` and does not continue it,
      the only occurrence of `w` is the leading one. */
  lemma OccursOnlyAtStart(w: string, t: string)
    requires Absent(t, w)
    requires |t| == 0 || t[0] !in w
    ensures forall i :: OccursAt(w + t, w, i) ==> i == 0
  {
    var s := w + t;
    forall i | 0 < i && i + |w| <= |s|
      ensures !OccursAt(s, w, i)
    {
      var window := s[i..i + |w|];
      if i >= |w| {
        assert window == t[i - |w|..i - |w| + |w|];
        assert !OccursAt(t, w, i - |w|);
      } else {
        assert window[|w| - i] == t[0];
      }
    }
  }

  /** `w` does not occur in `s`, and `s` neither starts nor ends with a
      character of `w`: such texts can be put side by side without `w`
      appearing across a seam. */
  ghost predicate Guarded(s: string, w: string)
  {
    |s| > 0 && s[0] !in w && s[|s| - 1] !in w && Absent(s, w)
  }

  lemma GuardedConcat(a: string, b: string, w: string)
    requires Guarded(a, w) && Guarded(b, w)
    ensures Guarded(a + b, w)
  {
    AbsentConcat(a, b, w);
    assert (a + b)[0] == a[0];
    assert (a + b)[|a + b| - 1] == b[|b| - 1];
  }

  lemma {:induction false} GuardedJoin(sep: string, xs: seq<string>, w: string)
    requires Guarded(sep, w)
    requires |xs| > 0 && forall i :: 0 <= i < |xs| ==> Guarded(xs[i], w)
    ensures Guarded(Join(sep, xs), w)
    decreases |xs|
  {
    if |xs| > 1 {
      GuardedJoin(sep, xs[1..], w);
      GuardedConcat(xs[0], sep, w);
      GuardedConcat(xs[0] + sep, Join(sep, xs[1..]), w);
    }
  }

  /** A text holding no character of `w` at all is guarded. */
  lemma GuardedWithoutCharsOf(s: string, w: string)
    requires |s| > 0 && |w| > 0
    requires forall k :: 0 <= k < |s| ==> s[k] !in w
    ensures Guarded(s, w)
  {
    AbsentWithoutFirstChar(s, w);
  }

  /** The text of `q` between a given head and a given ending, when `q`
      has both. */
  function Between(head: string, ending: string, q: string): (mid: Option<string>)
    ensures mid.Some? ==> |mid.value| == |q| - |head| - |ending|
  {
    if |head| + |ending| <= |q| && q[..|head|] == head && q[|q| - |ending|..] == ending
    then Some(q[|head|..|q| - |ending|])
    else None
  }

  /** Wrapping a text and reading it back gives the text. */
  lemma BetweenOfWrap(head: string, mid: string, ending: string)
    ensures Between(head, ending, head + mid + ending) == Some(mid)
  {
    var q := head + mid + ending;
    assert q[..|head|] == head;
    assert q[|q| - |ending|..] == ending;
    assert q[|head|..|q| - |ending|] == mid;
  }

  /** A text with the head and the ending is the wrap of what lies between. */
  lemma WrapOfBetween(head: string, ending: string, q: string)
    requires Between(head, ending, q).Some?
    ensures head + Between(head, ending, q).value + ending == q
  {
    assert q == q[..|head|] + q[|head|..|q| - |ending|] + q[|q| - |ending|..];
  }

  /** The middle of a concatenation occurs right after its first part. */
  lemma OccursInMiddle(a: string, b: string, c: string)
    ensures OccursAt(a + b + c, b, |a|)
  {
    assert (a + b + c)[|a|..|a| + |b|] == b;
  }
}
