/**
 * JavaScript's ordering of strings: the relational operators and the default
 * `Array.prototype.sort` compare the strings' UTF-16 code units one by one, a
 * proper prefix first.  A character outside the Basic Multilingual Plane is
 * two code units, a surrogate pair, so such characters sort before the code
 * points U+E000 to U+FFFF although their code points are larger.
 */
module TextOrder {

  /** The UTF-16 code units of one character: itself below U+10000, otherwise a surrogate pair. */
  function Units(c: char): (u: seq<int>)
    ensures 1 <= |u| <= 2 && forall k :: 0 <= k < |u| ==> 0 <= u[k] < 0x10000
    ensures |u| == 1 <==> c as int < 0x10000
  {
    var n := c as int;
    if n < 0x10000 then [n] else [0xD800 + (n - 0x10000) / 0x400, 0xDC00 + (n - 0x10000) % 0x400]
  }

  /** The UTF-16 code units of a string. */
  function Utf16(s: string): (u: seq<int>)
    ensures |s| <= |u| <= 2 * |s|
  {
    if |s| == 0 then [] else Units(s[0]) + Utf16(s[1..])
  }

  /** Lexicographic order on code-unit sequences, a proper prefix first. */
  predicate UnitsLess(a: seq<int>, b: seq<int>)
    decreases |a|
  {
    |b| > 0 && (|a| == 0 || a[0] < b[0] || (a[0] == b[0] && UnitsLess(a[1..], b[1..])))
  }

  /** `a < b` on JavaScript strings. */
  predicate Less(a: string, b: string)
  {
    UnitsLess(Utf16(a), Utf16(b))
  }

  /** `a <= b`. */
  predicate NotAfter(a: string, b: string)
  {
    a == b || Less(a, b)
  }

  /** Two encodings that agree from the start agree on the characters they begin with, and on what follows. */
  lemma UnitsLead(c: char, d: char, r: seq<int>, t: seq<int>)
    requires Units(c) + r == Units(d) + t
    ensures c == d && r == t
  {
    var u, v := Units(c), Units(d);
    assert u[0] == (u + r)[0] == (v + t)[0] == v[0];
    if c as int < 0x10000 && d as int < 0x10000 {
      assert u == [c as int] && v == [d as int];
    } else if c as int >= 0x10000 && d as int >= 0x10000 {
      assert u[1] == (u + r)[1] == (v + t)[1] == v[1];
      var m, n := c as int - 0x10000, d as int - 0x10000;
      assert m == m / 0x400 * 0x400 + m % 0x400 && n == n / 0x400 * 0x400 + n % 0x400;
    } else {
      assert false;
    }
    assert r == (u + r)[|u|..] == (v + t)[|v|..] == t;
  }

  /** Different strings have different encodings. */
  lemma {:induction false} Utf16Injective(a: string, b: string)
    requires Utf16(a) == Utf16(b)
    ensures a == b
    decreases |a|
  {
    if |a| > 0 && |b| > 0 {
      UnitsLead(a[0], b[0], Utf16(a[1..]), Utf16(b[1..]));
      Utf16Injective(a[1..], b[1..]);
      assert a == [a[0]] + a[1..] && b == [b[0]] + b[1..];
    }
  }

  /** A character beyond the Basic Multilingual Plane sorts before one from U+E000 up, unlike in code-point order. */
  lemma AstralFirst(c: char, d: char)
    requires 0xE000 <= d as int < 0x10000 <= c as int
    ensures Less([c], [d]) && c as int > d as int
  {
    assert Utf16([c]) == Units(c) && Utf16([d]) == Units(d);
  }

  lemma {:induction false} UnitsLessIrreflexive(a: seq<int>)
    ensures !UnitsLess(a, a)
    decreases |a|
  {
    if |a| > 0 {
      UnitsLessIrreflexive(a[1..]);
    }
  }

  lemma {:induction false} UnitsLessAsymmetric(a: seq<int>, b: seq<int>)
    ensures !(UnitsLess(a, b) && UnitsLess(b, a))
    decreases |a|
  {
    if |a| > 0 && |b| > 0 && a[0] == b[0] {
      UnitsLessAsymmetric(a[1..], b[1..]);
    }
  }

  lemma {:induction false} UnitsLessTotal(a: seq<int>, b: seq<int>)
    ensures a == b || UnitsLess(a, b) || UnitsLess(b, a)
    decreases |a|
  {
    if |a| > 0 && |b| > 0 && a[0] == b[0] {
      UnitsLessTotal(a[1..], b[1..]);
      if a[1..] == b[1..] {
        assert a == [a[0]] + a[1..] && b == [b[0]] + b[1..];
      }
    }
  }

  lemma {:induction false} UnitsLessTransitive(a: seq<int>, b: seq<int>, c: seq<int>)
    requires UnitsLess(a, b) && UnitsLess(b, c)
    ensures UnitsLess(a, c)
    decreases |a|
  {
    if |a| > 0 && a[0] == b[0] && b[0] == c[0] {
      UnitsLessTransitive(a[1..], b[1..], c[1..]);
    }
  }

  lemma LessIrreflexive(a: string)
    ensures !Less(a, a)
  {
    UnitsLessIrreflexive(Utf16(a));
  }

  lemma LessAsymmetric(a: string, b: string)
    ensures !(Less(a, b) && Less(b, a))
  {
    UnitsLessAsymmetric(Utf16(a), Utf16(b));
  }

  /** Any two different strings are ordered one way or the other. */
  lemma LessTotal(a: string, b: string)
    ensures a == b || Less(a, b) || Less(b, a)
  {
    UnitsLessTotal(Utf16(a), Utf16(b));
    if Utf16(a) == Utf16(b) {
      Utf16Injective(a, b);
    }
  }

  lemma LessTransitive(a: string, b: string, c: string)
    requires Less(a, b) && Less(b, c)
    ensures Less(a, c)
  {
    UnitsLessTransitive(Utf16(a), Utf16(b), Utf16(c));
  }

  lemma NotAfterTransitive(a: string, b: string, c: string)
    requires NotAfter(a, b) && NotAfter(b, c)
    ensures NotAfter(a, c)
  {
    if Less(a, b) && Less(b, c) {
      LessTransitive(a, b, c);
    }
  }

  /** Every pair of entries, taken in order, is in order. */
  predicate Ascending(ks: seq<string>)
  {
    forall i, j :: 0 <= i < j < |ks| ==> NotAfter(ks[i], ks[j])
  }

  /** Puts k before the first entry it does not follow. */
  function Insert(k: string, ks: seq<string>): (r: seq<string>)
    ensures multiset(r) == multiset(ks) + multiset{k}
    ensures |r| == |ks| + 1
  {
    if |ks| == 0 || NotAfter(k, ks[0]) then [k] + ks
    else
      assert ks == [ks[0]] + ks[1..];
      [ks[0]] + Insert(k, ks[1..])
  }

  lemma {:induction false} InsertAscending(k: string, ks: seq<string>)
    requires Ascending(ks)
    ensures Ascending(Insert(k, ks))
    decreases |ks|
  {
    if |ks| == 0 || NotAfter(k, ks[0]) {
      forall j | 0 <= j < |ks| ensures NotAfter(k, ks[j]) {
        if j > 0 {
          NotAfterTransitive(k, ks[0], ks[j]);
        }
      }
      ConsAscending(k, ks);
    } else {
      LessTotal(k, ks[0]);
      InsertAscending(k, ks[1..]);
      var t := Insert(k, ks[1..]);
      forall j | 0 <= j < |t| ensures NotAfter(ks[0], t[j]) {
        var x := t[j];
        assert x in multiset(t);
        assert x in multiset(ks[1..]) + multiset{k};
        if x in multiset(ks[1..]) {
          assert x in ks[1..];
          var m :| 0 <= m < |ks[1..]| && ks[1..][m] == x;
          assert ks[m + 1] == x;
        }
      }
      ConsAscending(ks[0], t);
    }
  }

  /** An entry that no later entry precedes, put in front of ascending entries, keeps them ascending. */
  lemma ConsAscending(h: string, t: seq<string>)
    requires Ascending(t) && forall j :: 0 <= j < |t| ==> NotAfter(h, t[j])
    ensures Ascending([h] + t)
  {
    var r := [h] + t;
    forall i, j | 0 <= i < j < |r| ensures NotAfter(r[i], r[j]) {
      assert r[j] == t[j - 1];
      if i > 0 {
        assert r[i] == t[i - 1];
      }
    }
  }

  /** The default `sort()` of an array of strings (an insertion sort stands in for the engine's). */
  function Sort(ks: seq<string>): (r: seq<string>)
    ensures |r| == |ks|
  {
    if |ks| == 0 then []
    else Insert(ks[0], Sort(ks[1..]))
  }

  /** Sorting keeps every key as often as it occurs. */
  lemma {:induction false} SortPermutes(ks: seq<string>)
    ensures multiset(Sort(ks)) == multiset(ks)
    decreases |ks|
  {
    if |ks| > 0 {
      SortPermutes(ks[1..]);
      assert ks == [ks[0]] + ks[1..];
    }
  }

  /** Sorting orders the keys and keeps them, each as often as it occurs. */
  lemma {:induction false} SortAscending(ks: seq<string>)
    ensures Ascending(Sort(ks))
    ensures forall k :: k in Sort(ks) <==> k in ks
    decreases |ks|
  {
    if |ks| > 0 {
      SortAscending(ks[1..]);
      InsertAscending(ks[0], Sort(ks[1..]));
    }
    SortPermutes(ks);
    forall k ensures k in Sort(ks) <==> k in ks {
      assert k in Sort(ks) <==> k in multiset(Sort(ks));
      assert k in ks <==> k in multiset(ks);
    }
  }

  /** Keys already in order come out of the sort unchanged. */
  lemma {:induction false} SortKeepsAscending(ks: seq<string>)
    requires Ascending(ks)
    ensures Sort(ks) == ks
    decreases |ks|
  {
    if |ks| > 0 {
      assert Ascending(ks[1..]) by {
        forall i, j | 0 <= i < j < |ks[1..]| ensures NotAfter(ks[1..][i], ks[1..][j]) {
          assert ks[1..][i] == ks[i + 1] && ks[1..][j] == ks[j + 1];
        }
      }
      SortKeepsAscending(ks[1..]);
      if |ks| > 1 {
        assert NotAfter(ks[0], ks[1]);
      }
    }
  }
}
