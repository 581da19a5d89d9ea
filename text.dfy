/** The handful of Python `str` operations the service relies on: `find`,
    `split`, `lower`, `replace` and digit conversion, on `seq<char>`. */
module Text {

  /** Number of occurrences of `c` in `s`. */
  function Occurrences(s: string, c: char): nat
  {
    multiset(s)[c]
  }

  /** `s.find(c)`: the index of the first `c` in `s`, or -1 when there is none. */
  function IndexOf(s: string, c: char): (r: int)
    ensures -1 <= r < |s|
    ensures r == -1 <==> c !in s
    ensures r >= 0 ==> s[r] == c && c !in s[..r]
  {
    if |s| == 0 then -1
    else if s[0] == c then 0
    else
      var k := IndexOf(s[1..], c);
      if k < 0 then -1
      else
        assert s[..k + 1] == [s[0]] + s[1..][..k];
        k + 1
  }

  /** The occurrences of `c` around one of them. */
  lemma OccurrencesAround(s: string, k: nat, c: char)
    requires k < |s| && s[k] == c
    ensures Occurrences(s, c) == Occurrences(s[..k], c) + 1 + Occurrences(s[k + 1..], c)
  {
    assert s == s[..k] + [c] + s[k + 1..];
  }

  /** `s.split(c)`: the pieces between the occurrences of `c`; there is always
      one more piece than there are separators, and no piece holds `c`. */
  function Split(s: string, c: char): (parts: seq<string>)
    ensures |parts| == Occurrences(s, c) + 1
    ensures forall i :: 0 <= i < |parts| ==> c !in parts[i]
    decreases |s|
  {
    var k := IndexOf(s, c);
    if k < 0 then [s]
    else
      assert s == s[..k] + [c] + s[k + 1..];
      assert multiset(s)[c] == multiset(s[..k])[c] + 1 + multiset(s[k + 1..])[c] by {
        assert multiset(s) == multiset(s[..k]) + multiset([c]) + multiset(s[k + 1..]);
      }
      [s[..k]] + Split(s[k + 1..], c)
  }

  /** `c.join(parts)`, the left inverse of `Split` (see JoinSplit). */
  function Join(parts: seq<string>, c: char): string
    requires |parts| >= 1
  {
    if |parts| == 1 then parts[0] else parts[0] + [c] + Join(parts[1..], c)
  }

  lemma {:induction false} JoinSplit(s: string, c: char)
    ensures Join(Split(s, c), c) == s
    decreases |s|
  {
    var k := IndexOf(s, c);
    if k >= 0 {
      JoinSplit(s[k + 1..], c);
      assert s == s[..k] + [c] + s[k + 1..];
    }
  }

  /** The first separator of `p + [c] + q` is the one after `p` when `p` holds none. */
  lemma IndexOfFirstPiece(p: string, q: string, c: char)
    requires c !in p
    ensures IndexOf(p + [c] + q, c) == |p|
  {
    var s := p + [c] + q;
    assert s[..|p|] == p;
    assert s[|p|] == c;
  }

  lemma SplitUnfold(s: string, c: char)
    requires IndexOf(s, c) >= 0
    ensures var k := IndexOf(s, c); Split(s, c) == [s[..k]] + Split(s[k + 1..], c)
  {
  }

  /** Splitting at a first separator that follows a separator-free `p`. */
  lemma SplitCons(p: string, q: string, c: char)
    requires c !in p
    ensures Split(p + [c] + q, c) == [p] + Split(q, c)
  {
    var s := p + [c] + q;
    IndexOfFirstPiece(p, q, c);
    SplitUnfold(s, c);
    assert s[..|p|] == p;
    assert s[|p| + 1..] == q;
  }

  lemma {:induction false} SplitJoin(parts: seq<string>, c: char)
    requires |parts| >= 1
    requires forall i :: 0 <= i < |parts| ==> c !in parts[i]
    ensures Split(Join(parts, c), c) == parts
  {
    if |parts| > 1 {
      var rest := parts[1..];
      var j := Join(rest, c);
      assert Join(parts, c) == parts[0] + [c] + j;
      assert Split(parts[0] + [c] + j, c) == [parts[0]] + Split(j, c) by {
        assert c !in parts[0];
        SplitCons(parts[0], j, c);
      }
      assert Split(j, c) == rest by {
        forall i | 0 <= i < |rest| ensures c !in rest[i] { assert rest[i] == parts[i + 1]; }
        SplitJoin(rest, c);
      }
      assert parts == [parts[0]] + rest;
    }
  }

  /** `h` is `s[i..j]`, with a separator `c` (or the start of `s`) just before
      it and a separator (or the end of `s`) just after it. */
  predicate DelimitedAt(h: string, s: string, c: char, i: nat, j: nat)
  {
    i <= j <= |s| && s[i..j] == h && (i == 0 || s[i - 1] == c) && (j == |s| || s[j] == c)
  }

  /** `h` occurs in `s` as a whole piece between separators. */
  ghost predicate DelimitedIn(h: string, s: string, c: char)
  {
    exists i: nat, j: nat :: DelimitedAt(h, s, c, i, j)
  }

  lemma SplitMemberRest(h: string, s: string, c: char)
    requires h in Split(s, c)
    requires IndexOf(s, c) >= 0 && h != s[..IndexOf(s, c)]
    ensures h in Split(s[IndexOf(s, c) + 1..], c)
  {
  }

  lemma DelimitedShift(h: string, s: string, c: char, k: nat)
    requires k < |s| && s[k] == c
    requires DelimitedIn(h, s[k + 1..], c)
    ensures DelimitedIn(h, s, c)
  {
    var rest := s[k + 1..];
    var i: nat, j: nat :| DelimitedAt(h, rest, c, i, j);
    assert s[k + 1 + i..k + 1 + j] == rest[i..j];
    assert DelimitedAt(h, s, c, k + 1 + i, k + 1 + j);
  }

  lemma {:induction false} SplitMemberDelimited(h: string, s: string, c: char)
    requires h in Split(s, c)
    ensures c !in h && DelimitedIn(h, s, c)
    decreases |s|
  {
    var k := IndexOf(s, c);
    if k < 0 {
      assert Split(s, c) == [s];
      assert s[0..|s|] == s;
      assert DelimitedAt(h, s, c, 0, |s|);
    } else if h == s[..k] {
      assert DelimitedAt(h, s, c, 0, k);
    } else {
      SplitMemberRest(h, s, c);
      SplitMemberDelimited(h, s[k + 1..], c);
      DelimitedShift(h, s, c, k);
    }
  }

  lemma DelimitedNoSeparator(h: string, s: string, c: char, i: nat, j: nat)
    requires IndexOf(s, c) < 0 && DelimitedAt(h, s, c, i, j)
    ensures h == s
  {
  }

  lemma DelimitedFirstPiece(h: string, s: string, c: char, j: nat)
    requires c !in h && IndexOf(s, c) >= 0 && DelimitedAt(h, s, c, 0, j)
    ensures h == s[..IndexOf(s, c)]
  {
  }

  lemma DelimitedLaterPiece(h: string, s: string, c: char, i: nat, j: nat)
    requires IndexOf(s, c) >= 0 && i > 0 && DelimitedAt(h, s, c, i, j)
    ensures var k := IndexOf(s, c); i > k && DelimitedAt(h, s[k + 1..], c, i - k - 1, j - k - 1)
  {
    var k := IndexOf(s, c);
    assert forall m :: 0 <= m < k ==> s[m] != c by {
      forall m | 0 <= m < k ensures s[m] != c { assert s[..k][m] == s[m]; }
    }
    assert s[i - 1] == c;
    assert s[k + 1..][i - k - 1..j - k - 1] == s[i..j];
  }

  lemma SplitWithoutSeparator(s: string, c: char)
    requires IndexOf(s, c) < 0
    ensures Split(s, c) == [s]
  {
  }

  lemma SplitFirstPiece(s: string, c: char)
    requires IndexOf(s, c) >= 0
    ensures s[..IndexOf(s, c)] in Split(s, c)
  {
    SplitUnfold(s, c);
  }

  lemma SplitLaterPiece(h: string, s: string, c: char)
    requires IndexOf(s, c) >= 0 && h in Split(s[IndexOf(s, c) + 1..], c)
    ensures h in Split(s, c)
  {
    SplitUnfold(s, c);
  }

  lemma {:induction false} DelimitedSplitMember(h: string, s: string, c: char, i: nat, j: nat)
    requires c !in h && DelimitedAt(h, s, c, i, j)
    ensures h in Split(s, c)
    decreases |s|
  {
    var k := IndexOf(s, c);
    if k < 0 {
      DelimitedNoSeparator(h, s, c, i, j);
      SplitWithoutSeparator(s, c);
    } else if i == 0 {
      DelimitedFirstPiece(h, s, c, j);
      SplitFirstPiece(s, c);
    } else {
      DelimitedLaterPiece(h, s, c, i, j);
      DelimitedSplitMember(h, s[k + 1..], c, i - k - 1, j - k - 1);
      SplitLaterPiece(h, s, c);
    }
  }

  /** A string is one of the pieces of `Split(s, c)` exactly when it holds no
      separator and occurs in `s` delimited by separators or the ends. */
  lemma SplitMember(h: string, s: string, c: char)
    ensures h in Split(s, c) <==> c !in h && DelimitedIn(h, s, c)
  {
    if h in Split(s, c) {
      SplitMemberDelimited(h, s, c);
    }
    if c !in h && DelimitedIn(h, s, c) {
      var i: nat, j: nat :| DelimitedAt(h, s, c, i, j);
      DelimitedSplitMember(h, s, c, i, j);
    }
  }

  /** ASCII upper-case letters become lower-case; every other character is kept. */
  function LowerChar(c: char): char
  {
    if 'A' <= c <= 'Z' then (c as int + 32) as char else c
  }

  /** `s.lower()`, restricted to ASCII letters. */
  function Lower(s: string): (r: string)
    ensures |r| == |s|
    ensures forall i :: 0 <= i < |s| ==> r[i] == LowerChar(s[i])
  {
    if |s| == 0 then "" else [LowerChar(s[0])] + Lower(s[1..])
  }

  /** `s.replace(a, b)` for single characters: every `a` becomes `b`. */
  function ReplaceChar(s: string, a: char, b: char): (r: string)
    ensures |r| == |s|
    ensures forall i :: 0 <= i < |s| ==> r[i] == if s[i] == a then b else s[i]
  {
    if |s| == 0 then "" else [if s[0] == a then b else s[0]] + ReplaceChar(s[1..], a, b)
  }

  /** `s.replace(c, '')`: every `c` is dropped, the rest keeps its order. */
  function RemoveChar(s: string, c: char): (r: string)
    ensures c !in r
    ensures forall x :: x in r ==> x in s
    ensures |r| == |s| - Occurrences(s, c)
  {
    if |s| == 0 then ""
    else
      assert s == [s[0]] + s[1..];
      assert multiset(s) == multiset([s[0]]) + multiset(s[1..]);
      (if s[0] == c then "" else [s[0]]) + RemoveChar(s[1..], c)
  }

  lemma {:induction false} RemoveCharAppend(a: string, b: string, c: char)
    ensures RemoveChar(a + b, c) == RemoveChar(a, c) + RemoveChar(b, c)
  {
    if |a| > 0 {
      assert (a + b)[1..] == a[1..] + b;
      RemoveCharAppend(a[1..], b, c);
    } else {
      assert a + b == b;
    }
  }

  lemma {:induction false} RemoveCharAbsent(s: string, c: char)
    requires c !in s
    ensures RemoveChar(s, c) == s
  {
    if |s| > 0 {
      RemoveCharAbsent(s[1..], c);
    }
  }

  predicate IsDigit(c: char)
  {
    '0' <= c <= '9'
  }

  predicate AllDigits(s: string)
  {
    forall i :: 0 <= i < |s| ==> IsDigit(s[i])
  }

  function Pow10(n: nat): (r: nat)
    ensures r >= 1
  {
    if n == 0 then 1 else 10 * Pow10(n - 1)
  }

  /** `int(s)` for a string of decimal digits; the value has at most |s| digits. */
  function Value(s: string): (r: nat)
    requires AllDigits(s)
    ensures r < Pow10(|s|)
  {
    if |s| == 0 then 0
    else Value(s[..|s| - 1]) * 10 + (s[|s| - 1] as int - '0' as int)
  }

  function Digit(n: nat): (c: char)
    requires n < 10
    ensures IsDigit(c)
  {
    (n + '0' as int) as char
  }

  /** `"%02d" % n`. */
  function Pad2(n: nat): (r: string)
    requires n < 100
    ensures |r| == 2 && AllDigits(r) && Value(r) == n
  {
    var r := [Digit(n / 10), Digit(n % 10)];
    assert r[..1] == [Digit(n / 10)];
    r
  }

  /** `"%04d" % n`. */
  function Pad4(n: nat): (r: string)
    requires n < 10000
    ensures |r| == 4 && AllDigits(r) && Value(r) == n
  {
    var r := Pad2(n / 100) + Pad2(n % 100);
    ValueAppend(Pad2(n / 100), Pad2(n % 100));
    r
  }

  /** Two digits are what `%02d` prints for their value. */
  lemma Pad2Value(s: string)
    requires |s| == 2 && AllDigits(s)
    ensures Value(s) < 100 && Pad2(Value(s)) == s
  {
    var a, b := s[0] as int - '0' as int, s[1] as int - '0' as int;
    assert s[..1][..0] == [];
    assert Value(s[..1]) == a;
    assert Value(s) == a * 10 + b;
    assert Value(s) / 10 == a && Value(s) % 10 == b;
  }

  /** Four digits are what `%04d` prints for their value. */
  lemma Pad4Value(s: string)
    requires |s| == 4 && AllDigits(s)
    ensures Value(s) < 10000 && Pad4(Value(s)) == s
  {
    var hi, lo := s[..2], s[2..];
    assert hi + lo == s;
    ValueAppend(hi, lo);
    assert Pow10(2) == 100;
    Pad2Value(hi);
    Pad2Value(lo);
    var n := Value(s);
    assert n == Value(hi) * 100 + Value(lo);
    assert n / 100 == Value(hi) && n % 100 == Value(lo);
  }

  lemma AllDigitsAppend(a: string, b: string)
    requires AllDigits(a) && AllDigits(b)
    ensures AllDigits(a + b)
  {
  }

  lemma ShiftDigit(x: int, p: int, y: int, d: int)
    ensures (x * p + y) * 10 + d == x * (p * 10) + (y * 10 + d)
  {
  }

  lemma {:induction false} ValueAppend(a: string, b: string)
    requires AllDigits(a) && AllDigits(b)
    ensures AllDigits(a + b) && Value(a + b) == Value(a) * Pow10(|b|) + Value(b)
    decreases |b|
  {
    AllDigitsAppend(a, b);
    if |b| > 0 {
      var b' := b[..|b| - 1];
      var d := b[|b| - 1] as int - '0' as int;
      assert (a + b)[..|a + b| - 1] == a + b';
      assert (a + b)[|a + b| - 1] == b[|b| - 1];
      ValueAppend(a, b');
      ShiftDigit(Value(a), Pow10(|b'|), Value(b'), d);
    } else {
      assert a + b == a;
    }
  }
}
