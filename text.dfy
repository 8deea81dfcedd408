/** String operations the source takes from Python's `str`: the substring test `in`,
    ASCII `lower()`, `split('; ')`, `split('=', 1)`, the ordering `sorted()` uses, and
    decimal digits. Strings are sequences of characters. */
module Text {
  import opened Wrappers

  /** `sub` occurs in `s` starting at index `i`. */
  predicate OccursAt(s: string, sub: string, i: int) {
    0 <= i && i + |sub| <= |s| && s[i..i + |sub|] == sub
  }

  /** Python's `sub in s` for strings. */
  predicate Contains(s: string, sub: string) {
    exists i :: 0 <= i <= |s| - |sub| && OccursAt(s, sub, i)
  }

  /** A string lacking a character of `sub` cannot contain `sub`. */
  lemma MissingCharExcludes(s: string, sub: string, c: char)
    requires c in sub && c !in s
    ensures !Contains(s, sub)
  {
    var j :| 0 <= j < |sub| && sub[j] == c;
    forall i | 0 <= i <= |s| - |sub|
      ensures !OccursAt(s, sub, i)
    {
      assert s[i..i + |sub|][j] == s[i + j] != c;
    }
  }

  function LowerChar(c: char): char {
    if 'A' <= c <= 'Z' then (c as int + 32) as char else c
  }

  /** `s.lower()` restricted to ASCII letters; other characters are kept. */
  function Lower(s: string): (r: string)
    ensures |r| == |s|
    ensures forall i :: 0 <= i < |s| ==> r[i] == LowerChar(s[i])
  {
    if s == [] then [] else [LowerChar(s[0])] + Lower(s[1..])
  }

  /** A case variant `w` of `sub` found in `s` is found, lower-cased, in `s.lower()`. */
  lemma LowerKeepsOccurrence(s: string, w: string, i: int)
    requires OccursAt(s, w, i)
    ensures OccursAt(Lower(s), Lower(w), i)
  {
    var ls, lw := Lower(s), Lower(w);
    forall k | 0 <= k < |w|
      ensures ls[i..i + |w|][k] == lw[k]
    {
      assert s[i..i + |w|][k] == w[k];
    }
  }

  // ---------------------------------------------------------------------------
  // `split('; ')`

  /** The separator that `load_cookies_from_string` splits on. */
  const Sep: string := "; "

  /** The separator "; " starts at index `i` of `s`. */
  predicate SepAt(s: string, i: int) {
    0 <= i && i + 1 < |s| && s[i] == ';' && s[i + 1] == ' '
  }

  predicate SepFree(s: string) {
    forall i :: 0 <= i < |s| ==> !SepAt(s, i)
  }

  /** Python's `s.split('; ')`: cut at every occurrence of the separator, scanning
      from the left; the empty string gives `[""]`. */
  function Split(s: string): (parts: seq<string>)
    ensures |parts| >= 1 && parts[0] <= s
    decreases |s|
  {
    if |s| < 2 then [s]
    else if SepAt(s, 0) then [""] + Split(s[2..])
    else
      var rest := Split(s[1..]);
      [[s[0]] + rest[0]] + rest[1..]
  }

  /** `'; '.join(parts)`. */
  function Join(parts: seq<string>): string
    requires |parts| >= 1
  {
    if |parts| == 1 then parts[0] else parts[0] + Sep + Join(parts[1..])
  }

  /** Joining the pieces back with the separator gives the original string. */
  lemma {:induction false} JoinSplit(s: string)
    ensures Join(Split(s)) == s
    decreases |s|
  {
    if |s| < 2 {
    } else if SepAt(s, 0) {
      JoinSplit(s[2..]);
      assert s == Sep + s[2..];
    } else {
      var rest := Split(s[1..]);
      JoinSplit(s[1..]);
      var parts := [[s[0]] + rest[0]] + rest[1..];
      assert Split(s) == parts;
      if |rest| == 1 {
        assert Join(parts) == [s[0]] + rest[0];
      } else {
        assert parts[1..] == rest[1..];
        assert Join(rest) == rest[0] + Sep + Join(rest[1..]);
        assert Join(parts) == [s[0]] + rest[0] + Sep + Join(rest[1..]);
      }
      assert s == [s[0]] + s[1..];
    }
  }

  /** No piece contains the separator: with `JoinSplit` this pins the pieces down. */
  lemma {:induction false} SplitPiecesSepFree(s: string)
    ensures forall p :: p in Split(s) ==> SepFree(p)
    decreases |s|
  {
    if |s| < 2 {
    } else if SepAt(s, 0) {
      SplitPiecesSepFree(s[2..]);
      assert SepFree("");
    } else {
      var rest := Split(s[1..]);
      SplitPiecesSepFree(s[1..]);
      var first := [s[0]] + rest[0];
      assert rest[0] in rest;
      forall i | 0 <= i < |first| ensures !SepAt(first, i) {
        if SepAt(first, i) {
          if i == 0 {
            assert first[1] == rest[0][0] == s[1];
            assert SepAt(s, 0);
          } else {
            assert SepAt(rest[0], i - 1);
          }
        }
      }
      forall p | p in Split(s) ensures SepFree(p) {
        if p != first {
          assert p in rest[1..];
        }
      }
    }
  }

  lemma SepFreeTail(p: string)
    requires SepFree(p) && |p| > 0
    ensures SepFree(p[1..])
  {
    forall i | 0 <= i < |p[1..]| ensures !SepAt(p[1..], i) {
      assert !SepAt(p, i + 1);
    }
  }

  /** A piece free of the separator is not cut. */
  lemma {:induction false} SplitSepFree(p: string)
    requires SepFree(p)
    ensures Split(p) == [p]
    decreases |p|
  {
    if |p| >= 2 {
      assert !SepAt(p, 0);
      SepFreeTail(p);
      SplitSepFree(p[1..]);
      assert [p[0]] + p[1..] == p;
    }
  }

  /** A piece free of the separator, followed by the separator, is cut off whole. */
  lemma {:induction false} SplitAfterPiece(p: string, rest: string)
    requires SepFree(p)
    ensures Split(p + Sep + rest) == [p] + Split(rest)
    decreases |p|
  {
    var s := p + Sep + rest;
    if p == [] {
      assert s == Sep + rest;
      assert SepAt(s, 0);
      assert s[2..] == rest;
    } else {
      if |p| >= 2 {
        assert !SepAt(p, 0);
      }
      assert !SepAt(s, 0);
      SepFreeTail(p);
      SplitAfterPiece(p[1..], rest);
      assert s[1..] == p[1..] + Sep + rest;
      assert [s[0]] + p[1..] == p;
    }
  }

  /** Splitting undoes joining when no piece holds the separator. */
  lemma {:induction false} SplitJoin(parts: seq<string>)
    requires |parts| >= 1
    requires forall i :: 0 <= i < |parts| ==> SepFree(parts[i])
    ensures Split(Join(parts)) == parts
    decreases |parts|
  {
    if |parts| == 1 {
      SplitSepFree(parts[0]);
    } else {
      SplitJoin(parts[1..]);
      SplitAfterPiece(parts[0], Join(parts[1..]));
      assert parts == [parts[0]] + parts[1..];
    }
  }

  /** Every character of a piece is a character of the joined string. */
  lemma {:induction false} JoinKeepsChars(parts: seq<string>, k: int, c: char)
    requires |parts| >= 1 && 0 <= k < |parts| && c in parts[k]
    ensures c in Join(parts)
    decreases |parts|
  {
    if k == 0 {
      var i :| 0 <= i < |parts[0]| && parts[0][i] == c;
      assert Join(parts)[i] == c;
    } else {
      JoinKeepsChars(parts[1..], k - 1, c);
      var j :| 0 <= j < |Join(parts[1..])| && Join(parts[1..])[j] == c;
      assert Join(parts)[|parts[0]| + 2 + j] == c;
    }
  }

  /** A character absent from `s` is absent from every piece of `s.split('; ')`. */
  lemma SplitPiecesLack(s: string, c: char)
    requires c !in s
    ensures forall p :: p in Split(s) ==> c !in p
  {
    JoinSplit(s);
    forall p | p in Split(s) ensures c !in p {
      if c in p {
        var k :| 0 <= k < |Split(s)| && Split(s)[k] == p;
        JoinKeepsChars(Split(s), k, c);
      }
    }
  }

  // ---------------------------------------------------------------------------
  // `split('=', 1)`

  /** Index of the first `c` in `s`. */
  function IndexOf(s: string, c: char): (i: nat)
    requires c in s
    ensures i < |s| && s[i] == c && c !in s[..i]
  {
    if s[0] == c then 0
    else
      var j := IndexOf(s[1..], c);
      assert s[..j + 1] == [s[0]] + s[1..][..j];
      j + 1
  }

  /** The first `c` lies past a prefix that lacks it. */
  lemma {:induction false} IndexOfAfter(a: string, b: string, c: char)
    requires c !in a && c in b
    ensures IndexOf(a + b, c) == |a| + IndexOf(b, c)
    decreases |a|
  {
    if a != [] {
      assert (a + b)[0] == a[0];
      assert (a + b)[1..] == a[1..] + b;
      IndexOfAfter(a[1..], b, c);
    } else {
      assert a + b == b;
    }
  }

  // ---------------------------------------------------------------------------
  // Ordering of `sorted()` on strings: lexicographic by code point.

  /** Python's `a <= b` on strings. */
  predicate LexLeq(a: string, b: string) {
    |a| == 0 || (|b| > 0 && (a[0] < b[0] || (a[0] == b[0] && LexLeq(a[1..], b[1..]))))
  }

  lemma {:induction false} LexLeqTotal(a: string, b: string)
    ensures LexLeq(a, b) || LexLeq(b, a)
    decreases |a|
  {
    if |a| > 0 && |b| > 0 && a[0] == b[0] {
      LexLeqTotal(a[1..], b[1..]);
    }
  }

  lemma {:induction false} LexLeqTrans(a: string, b: string, c: string)
    requires LexLeq(a, b) && LexLeq(b, c)
    ensures LexLeq(a, c)
    decreases |a|
  {
    if |a| > 0 && a[0] == b[0] && b[0] == c[0] {
      LexLeqTrans(a[1..], b[1..], c[1..]);
    }
  }

  predicate Sorted(s: seq<string>) {
    forall i, j :: 0 <= i < j < |s| ==> LexLeq(s[i], s[j])
  }

  /** Insert `x` into the sorted `s`. */
  function Insert(x: string, s: seq<string>): (r: seq<string>)
    requires Sorted(s)
    ensures Sorted(r) && multiset(r) == multiset(s) + multiset{x}
  {
    if s == [] then [x]
    else if LexLeq(x, s[0]) then
      forall j | 0 < j < |s| ensures LexLeq(x, s[j]) {
        LexLeqTrans(x, s[0], s[j]);
      }
      assert s == [s[0]] + s[1..];
      [x] + s
    else
      LexLeqTotal(x, s[0]);
      assert s == [s[0]] + s[1..];
      var t := Insert(x, s[1..]);
      forall j | 0 <= j < |t| ensures LexLeq(s[0], t[j]) {
        assert t[j] in multiset(t);
        if t[j] != x {
          assert t[j] in multiset(s[1..]);
          var k :| 1 <= k < |s| && s[k] == t[j];
        }
      }
      [s[0]] + t
  }

  /** `sorted(s)`: the same strings, in order. */
  function SortStrings(s: seq<string>): (r: seq<string>)
    ensures Sorted(r) && multiset(r) == multiset(s)
  {
    if s == [] then []
    else
      assert s == [s[0]] + s[1..];
      Insert(s[0], SortStrings(s[1..]))
  }

  // ---------------------------------------------------------------------------
  // Decimal digits

  predicate IsDigit(c: char) {
    '0' <= c <= '9'
  }

  function DigitValue(c: char): nat
    requires IsDigit(c)
  {
    c as int - '0' as int
  }

  function DigitChar(d: nat): (c: char)
    requires d < 10
    ensures IsDigit(c) && DigitValue(c) == d
  {
    (d + '0' as int) as char
  }

  /** `str(n)`. */
  function NatToString(n: nat): (r: string)
    ensures |r| >= 1 && forall i :: 0 <= i < |r| ==> IsDigit(r[i])
  {
    if n < 10 then [DigitChar(n)] else NatToString(n / 10) + [DigitChar(n % 10)]
  }

  // ---------------------------------------------------------------------------
  // Unicode decimal digits

  /** The digit `cp` stands for in the run of ten code points that starts at `zero`. */
  function InRun(cp: int, zero: int): (d: Option<nat>)
    ensures d.Some? <==> zero <= cp < zero + 10
    ensures d.Some? ==> d.value == cp - zero && d.value < 10
  {
    if zero <= cp < zero + 10 then Some(cp - zero) else None
  }

  /** The value of `c` when it is a decimal digit (general category Nd) of Unicode
      15.0, the version Python 3.12 ships: the characters its `re` module matches with
      `\d` in a `str` pattern and that `int()` reads. They come in 68 runs of ten, the
      digits 0 to 9 in code-point order; the search below is over the first code
      point of each run. */
  function DecimalDigit(c: char): (d: Option<nat>)
    ensures d.Some? ==> d.value < 10
    ensures c as int < 0x660 ==> (d.Some? <==> IsDigit(c))
    ensures IsDigit(c) ==> d == Some(DigitValue(c))
  {
    var cp := c as int;
    if cp < 0xAA50 then
      if cp < 0x1040 then
        if cp < 0xB66 then
          if cp < 0x966 then
            if cp < 0x6F0 then
              if cp < 0x660 then InRun(cp, 0x30) else InRun(cp, 0x660)
            else
              if cp < 0x7C0 then InRun(cp, 0x6F0) else InRun(cp, 0x7C0)
          else
            if cp < 0xA66 then
              if cp < 0x9E6 then InRun(cp, 0x966) else InRun(cp, 0x9E6)
            else
              if cp < 0xAE6 then InRun(cp, 0xA66) else InRun(cp, 0xAE6)
        else
          if cp < 0xD66 then
            if cp < 0xC66 then
              if cp < 0xBE6 then InRun(cp, 0xB66) else InRun(cp, 0xBE6)
            else
              if cp < 0xCE6 then InRun(cp, 0xC66) else InRun(cp, 0xCE6)
          else
            if cp < 0xE50 then
              if cp < 0xDE6 then InRun(cp, 0xD66) else InRun(cp, 0xDE6)
            else
              if cp < 0xED0 then
                InRun(cp, 0xE50)
              else
                if cp < 0xF20 then InRun(cp, 0xED0) else InRun(cp, 0xF20)
      else
        if cp < 0x1B50 then
          if cp < 0x1946 then
            if cp < 0x17E0 then
              if cp < 0x1090 then InRun(cp, 0x1040) else InRun(cp, 0x1090)
            else
              if cp < 0x1810 then InRun(cp, 0x17E0) else InRun(cp, 0x1810)
          else
            if cp < 0x1A80 then
              if cp < 0x19D0 then InRun(cp, 0x1946) else InRun(cp, 0x19D0)
            else
              if cp < 0x1A90 then InRun(cp, 0x1A80) else InRun(cp, 0x1A90)
        else
          if cp < 0xA620 then
            if cp < 0x1C40 then
              if cp < 0x1BB0 then InRun(cp, 0x1B50) else InRun(cp, 0x1BB0)
            else
              if cp < 0x1C50 then InRun(cp, 0x1C40) else InRun(cp, 0x1C50)
          else
            if cp < 0xA900 then
              if cp < 0xA8D0 then InRun(cp, 0xA620) else InRun(cp, 0xA8D0)
            else
              if cp < 0xA9D0 then
                InRun(cp, 0xA900)
              else
                if cp < 0xA9F0 then InRun(cp, 0xA9D0) else InRun(cp, 0xA9F0)
    else
      if cp < 0x11C50 then
        if cp < 0x111D0 then
          if cp < 0x10D30 then
            if cp < 0xFF10 then
              if cp < 0xABF0 then InRun(cp, 0xAA50) else InRun(cp, 0xABF0)
            else
              if cp < 0x104A0 then InRun(cp, 0xFF10) else InRun(cp, 0x104A0)
          else
            if cp < 0x110F0 then
              if cp < 0x11066 then InRun(cp, 0x10D30) else InRun(cp, 0x11066)
            else
              if cp < 0x11136 then InRun(cp, 0x110F0) else InRun(cp, 0x11136)
        else
          if cp < 0x11650 then
            if cp < 0x11450 then
              if cp < 0x112F0 then InRun(cp, 0x111D0) else InRun(cp, 0x112F0)
            else
              if cp < 0x114D0 then InRun(cp, 0x11450) else InRun(cp, 0x114D0)
          else
            if cp < 0x11730 then
              if cp < 0x116C0 then InRun(cp, 0x11650) else InRun(cp, 0x116C0)
            else
              if cp < 0x118E0 then
                InRun(cp, 0x11730)
              else
                if cp < 0x11950 then InRun(cp, 0x118E0) else InRun(cp, 0x11950)
      else
        if cp < 0x1D7D8 then
          if cp < 0x16A60 then
            if cp < 0x11DA0 then
              if cp < 0x11D50 then InRun(cp, 0x11C50) else InRun(cp, 0x11D50)
            else
              if cp < 0x11F50 then InRun(cp, 0x11DA0) else InRun(cp, 0x11F50)
          else
            if cp < 0x16B50 then
              if cp < 0x16AC0 then InRun(cp, 0x16A60) else InRun(cp, 0x16AC0)
            else
              if cp < 0x1D7CE then InRun(cp, 0x16B50) else InRun(cp, 0x1D7CE)
        else
          if cp < 0x1E140 then
            if cp < 0x1D7EC then
              if cp < 0x1D7E2 then InRun(cp, 0x1D7D8) else InRun(cp, 0x1D7E2)
            else
              if cp < 0x1D7F6 then InRun(cp, 0x1D7EC) else InRun(cp, 0x1D7F6)
          else
            if cp < 0x1E4F0 then
              if cp < 0x1E2F0 then InRun(cp, 0x1E140) else InRun(cp, 0x1E2F0)
            else
              if cp < 0x1E950 then
                InRun(cp, 0x1E4F0)
              else
                if cp < 0x1FBF0 then InRun(cp, 0x1E950) else InRun(cp, 0x1FBF0)
  }
}
