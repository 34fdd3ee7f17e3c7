/**
 * `sortObjectKeysRecursively`: rebuilds a JSON-like value with the properties
 * of every object, at every depth, in sorted order, so that two layouts
 * serialise identically whatever order their properties were added in.
 */
module KeySorting {
  import opened JsValues
  import opened TextOrder

  /** The value of property k of an object that has it. */
  function At(es: seq<(string, Value)>, k: string): Value
    requires k in Keys(es)
  {
    es[Find(es, k)].1
  }

  /**
   * The order of names in a normalised object: array indices first, in
   * numeric order, then the other names ascending by `Less`.
   */
  predicate Before(a: string, b: string)
  {
    if IsIndex(a) && IsIndex(b) then IndexValue(a) < IndexValue(b)
    else if IsIndex(a) || IsIndex(b) then IsIndex(a)
    else Less(a, b)
  }

  /** Every pair of names, taken in order, is in `Before` order. */
  predicate Increasing(ks: seq<string>)
  {
    forall i, j :: 0 <= i < j < |ks| ==> Before(ks[i], ks[j])
  }

  /**
   * The normalised value: scalars, `null` and `undefined` as they are, arrays
   * element by element, objects rebuilt by assigning their names in sorted
   * order, each with its normalised value, into an empty object.
   */
  function Normalized(v: Value): (r: Value)
    ensures v.Array? <==> r.Array?
    ensures v.Object? <==> r.Object?
    ensures !(v.Array? || v.Object?) ==> r == v
    ensures v.Array? ==> |r.items| == |v.items|
    decreases v, 1
  {
    match v
    case Array(items) =>
      Array(seq(|items|, i requires 0 <= i < |items| => Normalized(items[i])))
    case Object(es) =>
      Object(Assigned(Pairs(es)))
    case _ => v
  }

  /** The sorted names of an object, each with its normalised value, in the order the script assigns them. */
  function Pairs(es: seq<(string, Value)>): (ps: seq<(string, Value)>)
    ensures |ps| == |es|
    ensures forall i :: 0 <= i < |ps| ==>
      ps[i].0 == Sort(Keys(es))[i] && ps[i].0 in Keys(es) && ps[i].1 == Normalized(At(es, ps[i].0))
    decreases Object(es), 0
  {
    var ks := Sort(Keys(es));
    SortAscending(Keys(es));
    seq(|ks|, i requires 0 <= i < |ks| && ks[i] in Keys(es) => (ks[i], Normalized(At(es, ks[i]))))
  }

  /** The properties `o[k] = v` leaves after each pair of ps is assigned in turn, starting from `{}`. */
  function Assigned(ps: seq<(string, Value)>): seq<(string, Value)>
  {
    if |ps| == 0 then []
    else Assign(Assigned(ps[..|ps| - 1]), ps[|ps| - 1].0, ps[|ps| - 1].1)
  }

  /**
   * The normaliser as the fixture script runs it: arrays are mapped element by
   * element; for an object the sorted property names are visited in order and
   * each normalised value is assigned into a fresh object.
   */
  method SortObjectKeysRecursively(v: Value) returns (r: Value)
    ensures r == Normalized(v)
    decreases v, 2
  {
    match v {
      case Array(_) =>
        var out := SortItems(v);
        r := Array(out);
      case Object(_) =>
        var sorted := SortEntries(v);
        r := Object(sorted);
      case _ =>
        r := v;
    }
  }

  /** The array branch: each element normalised in turn. */
  method SortItems(v: Value) returns (out: seq<Value>)
    requires v.Array?
    ensures Array(out) == Normalized(v)
    decreases v, 0
  {
    var items := v.items;
    ghost var want := Normalized(v).items;
    assert want == seq(|items|, j requires 0 <= j < |items| => Normalized(items[j]));
    out := [];
    for i := 0 to |items|
      invariant out == want[..i]
    {
      var x := SortObjectKeysRecursively(items[i]);
      assert want[..i + 1] == want[..i] + [x];
      out := out + [x];
    }
    assert want[..|items|] == want;
  }

  /** The object branch: the sorted names visited in order, each assigned its normalised value. */
  method SortEntries(v: Value) returns (sorted: seq<(string, Value)>)
    requires v.Object?
    ensures Object(sorted) == Normalized(v)
    decreases v, 1
  {
    var es := v.entries;
    var keys := Sort(Keys(es));
    ghost var ps := Pairs(es);
    sorted := [];
    for i := 0 to |keys|
      invariant sorted == Assigned(ps[..i])
    {
      var x := SortObjectKeysRecursively(At(es, keys[i]));
      assert ps[..i + 1][..i] == ps[..i] && ps[i] == (keys[i], x);
      sorted := Assign(sorted, keys[i], x);
    }
    assert ps[..|keys|] == ps;
  }

  /** Sorting distinct names leaves them distinct, so each is strictly below the next. */
  lemma SortStrict(ks: seq<string>)
    requires Unique(ks)
    ensures forall i, j :: 0 <= i < j < |Sort(ks)| ==> Less(Sort(ks)[i], Sort(ks)[j])
  {
    SortAscending(ks);
    SortUnique(ks);
  }

  lemma {:induction false} SortUnique(ks: seq<string>)
    requires Unique(ks)
    ensures Unique(Sort(ks))
    decreases |ks|
  {
    if |ks| > 0 {
      assert Unique(ks[1..]) by {
        forall i, j | 0 <= i < j < |ks[1..]| ensures ks[1..][i] != ks[1..][j] {
          assert ks[1..][i] == ks[i + 1] && ks[1..][j] == ks[j + 1];
        }
      }
      SortUnique(ks[1..]);
      SortAscending(ks[1..]);
      assert ks[0] !in ks[1..];
      InsertUnique(ks[0], Sort(ks[1..]));
    }
  }

  lemma {:induction false} InsertUnique(k: string, t: seq<string>)
    requires Unique(t) && k !in t
    ensures Unique(Insert(k, t))
    decreases |t|
  {
    if |t| > 0 && !NotAfter(k, t[0]) {
      var u := t[1..];
      assert Unique(u) by {
        forall i, j | 0 <= i < j < |u| ensures u[i] != u[j] {
          assert u[i] == t[i + 1] && u[j] == t[j + 1];
        }
      }
      InsertUnique(k, u);
      var r := Insert(k, u);
      assert t[0] !in r by {
        assert t[0] != k && t[0] !in u;
        assert multiset(r) == multiset(u) + multiset{k};
        assert t[0] !in multiset(r);
      }
      assert Insert(k, t) == [t[0]] + r;
    } else {
      assert Insert(k, t) == [k] + t;
    }
  }

  lemma BeforeIrreflexive(a: string)
    ensures !Before(a, a)
  {
    LessIrreflexive(a);
  }

  lemma BeforeAsymmetric(a: string, b: string)
    ensures !(Before(a, b) && Before(b, a))
  {
    LessAsymmetric(a, b);
  }

  /** Two lists of the same names, both in `Before` order, are the same list. */
  lemma {:induction false} IncreasingUnique(a: seq<string>, b: seq<string>)
    requires Increasing(a) && Increasing(b)
    requires forall k :: k in a <==> k in b
    ensures a == b
    decreases |a|
  {
    if |a| > 0 {
      assert a[0] in b;
    }
    if |b| > 0 {
      assert b[0] in a;
    }
    if |a| > 0 && |b| > 0 {
      if a[0] != b[0] {
        var i :| 0 <= i < |a| && a[i] == b[0];
        var j :| 0 <= j < |b| && b[j] == a[0];
        assert i > 0 && j > 0;
        BeforeAsymmetric(a[0], b[0]);
        assert false;
      }
      forall k ensures k in a[1..] <==> k in b[1..] {
        if k in a[1..] {
          var i :| 0 <= i < |a[1..]| && a[1..][i] == k;
          assert a[i + 1] == k && k in a && k in b;
          BeforeIrreflexive(a[0]);
          var j :| 0 <= j < |b| && b[j] == k;
          assert j != 0 && b[1..][j - 1] == k;
        }
        if k in b[1..] {
          var j :| 0 <= j < |b[1..]| && b[1..][j] == k;
          assert b[j + 1] == k && k in b && k in a;
          BeforeIrreflexive(b[0]);
          var i :| 0 <= i < |a| && a[i] == k;
          assert i != 0 && a[1..][i - 1] == k;
        }
      }
      IncreasingUnique(a[1..], b[1..]);
      assert a == [a[0]] + a[1..] && b == [b[0]] + b[1..];
    }
  }

  /** A list in `Before` order is one JavaScript can hold as an object's property list. */
  lemma IncreasingInOrder(es: seq<(string, Value)>)
    requires Increasing(Keys(es))
    ensures InOrder(es)
  {
    forall i, j | 0 <= i < j < |es| ensures es[i].0 != es[j].0 {
      assert Before(Keys(es)[i], Keys(es)[j]);
      BeforeIrreflexive(es[i].0);
    }
  }

  lemma BeforeTransitive(a: string, b: string, c: string)
    requires Before(a, b) && Before(b, c)
    ensures Before(a, c)
  {
    if !IsIndex(a) && !IsIndex(b) && !IsIndex(c) {
      LessTransitive(a, b, c);
    }
  }

  /** An entry put between the names it follows and the name it precedes keeps the names in `Before` order. */
  lemma InsertIncreasing(es: seq<(string, Value)>, p: nat, e: (string, Value))
    requires p <= |es| && Increasing(Keys(es))
    requires forall j :: 0 <= j < p ==> Before(es[j].0, e.0)
    requires p < |es| ==> Before(e.0, es[p].0)
    ensures Increasing(Keys(es[..p] + [e] + es[p..]))
  {
    var r, ks := es[..p] + [e] + es[p..], Keys(es);
    var rs := Keys(r);
    forall i, j | 0 <= i < j < |r| ensures Before(rs[i], rs[j]) {
      if j < p {
        assert r[i] == es[i] && r[j] == es[j];
        assert Before(ks[i], ks[j]);
      } else if j == p {
        assert r[i] == es[i] && r[j] == e;
      } else if i < p {
        assert r[i] == es[i] && r[j] == es[j - 1];
        assert Before(ks[i], ks[j - 1]);
      } else if i == p {
        assert r[i] == e && r[j] == es[j - 1];
        if j - 1 > p {
          assert Before(ks[p], ks[j - 1]);
          BeforeTransitive(e.0, es[p].0, es[j - 1].0);
        }
      } else {
        assert r[i] == es[i - 1] && r[j] == es[j - 1];
        assert Before(ks[i - 1], ks[j - 1]);
      }
    }
  }

  /**
   * Assigning a new name to an object whose names are in `Before` order keeps
   * them so, provided a name that is not an array index comes after every
   * other such name already there.
   */
  lemma AssignFresh(es: seq<(string, Value)>, k: string, v: Value)
    requires Increasing(Keys(es)) && k !in Keys(es)
    requires !IsIndex(k) ==> forall j :: 0 <= j < |es| && !IsIndex(es[j].0) ==> Less(es[j].0, k)
    ensures Increasing(Keys(Assign(es, k, v)))
  {
    var ks := Keys(es);
    if IsIndex(k) {
      var p := IndexSlot(es, k);
      assert Assign(es, k, v) == es[..p] + [(k, v)] + es[p..];
      if p < |es| {
        var x := es[p].0;
        assert x == ks[p] && x != k;
        if IsIndex(x) && IndexValue(x) == IndexValue(k) {
          IndexValueInjective(x, k);
        }
      }
      InsertIncreasing(es, p, (k, v));
    } else {
      assert Assign(es, k, v) == es[..|es|] + [(k, v)] + es[|es|..];
      InsertIncreasing(es, |es|, (k, v));
    }
  }

  /**
   * Assigning pairs with strictly ascending names, one by one, into an empty
   * object gives back exactly those pairs, with the names in `Before` order.
   */
  lemma {:induction false} AssignedSorted(ps: seq<(string, Value)>)
    requires forall i, j :: 0 <= i < j < |ps| ==> Less(ps[i].0, ps[j].0)
    ensures multiset(Assigned(ps)) == multiset(ps)
    ensures Increasing(Keys(Assigned(ps)))
    decreases |ps|
  {
    if |ps| > 0 {
      var n := |ps| - 1;
      var q, k, v := ps[..n], ps[n].0, ps[n].1;
      AssignedSorted(q);
      var r := Assigned(q);
      AssignedBelow(q, k);
      AssignFresh(r, k, v);
      assert ps == q + [ps[n]];
    }
  }

  /** A name above every name of q is above every name the assignments of q leave, and is not one of them. */
  lemma AssignedBelow(q: seq<(string, Value)>, k: string)
    requires multiset(Assigned(q)) == multiset(q)
    requires forall m :: 0 <= m < |q| ==> Less(q[m].0, k)
    ensures forall j :: 0 <= j < |Assigned(q)| ==> Less(Assigned(q)[j].0, k)
    ensures k !in Keys(Assigned(q))
  {
    var r := Assigned(q);
    forall j | 0 <= j < |r| ensures Less(r[j].0, k) {
      assert r[j] in multiset(q);
      var m :| 0 <= m < |q| && q[m] == r[j];
    }
    if k in Keys(r) {
      var j := Find(r, k);
      LessIrreflexive(k);
    }
  }

  /**
   * The object branch keeps exactly the object's names, puts them in `Before`
   * order (array indices first, numerically, then the rest by `Less`), and
   * gives each its normalised value.
   */
  lemma ObjectProperties(es: seq<(string, Value)>)
    requires Unique(Keys(es))
    ensures var out := Normalized(Object(es)).entries;
      && |out| == |es|
      && Increasing(Keys(out))
      && (forall k :: k in Keys(out) <==> k in Keys(es))
      && (forall i :: 0 <= i < |out| ==> out[i].0 in Keys(es) && out[i].1 == Normalized(At(es, out[i].0)))
  {
    var ps := Pairs(es);
    SortStrict(Keys(es));
    AssignedSorted(ps);
    var out := Normalized(Object(es)).entries;
    assert out == Assigned(ps);
    assert |out| == |multiset(out)| == |multiset(ps)| == |es|;
    forall x ensures x in out <==> x in ps {
      assert x in out <==> x in multiset(out);
      assert x in ps <==> x in multiset(ps);
    }
    FromPairs(es, out);
    ToPairs(es, out);
  }

  /** Entries drawn from the pairs of es carry names of es with their normalised values. */
  lemma FromPairs(es: seq<(string, Value)>, out: seq<(string, Value)>)
    requires forall x :: x in out ==> x in Pairs(es)
    ensures forall i :: 0 <= i < |out| ==> out[i].0 in Keys(es) && out[i].1 == Normalized(At(es, out[i].0))
    ensures forall k :: k in Keys(out) ==> k in Keys(es)
  {
    var ps := Pairs(es);
    forall i | 0 <= i < |out| ensures out[i].0 in Keys(es) && out[i].1 == Normalized(At(es, out[i].0)) {
      assert out[i] in ps;
      var m :| 0 <= m < |ps| && ps[m] == out[i];
    }
    forall k | k in Keys(out) ensures k in Keys(es) {
      var i := Find(out, k);
    }
  }

  /** Entries that include all the pairs of es include every name of es. */
  lemma ToPairs(es: seq<(string, Value)>, out: seq<(string, Value)>)
    requires forall x :: x in Pairs(es) ==> x in out
    ensures forall k :: k in Keys(es) ==> k in Keys(out)
  {
    var ps, ks := Pairs(es), Sort(Keys(es));
    SortAscending(Keys(es));
    forall k | k in Keys(es) ensures k in Keys(out) {
      assert k in ks;
      var m :| 0 <= m < |ks| && ks[m] == k;
      assert ps[m] in out;
      var i :| 0 <= i < |out| && out[i] == ps[m];
      assert Keys(out)[i] == k;
    }
  }

  /** A name of a normalised object holds that name's normalised value. */
  lemma AtNormalized(es: seq<(string, Value)>, k: string)
    requires Unique(Keys(es)) && k in Keys(es)
    ensures k in Keys(Normalized(Object(es)).entries)
    ensures At(Normalized(Object(es)).entries, k) == Normalized(At(es, k))
  {
    ObjectProperties(es);
    var out := Normalized(Object(es)).entries;
    var i := Find(out, k);
  }

  /** Normalising a value JavaScript can hold gives one it can hold. */
  lemma {:induction false} NormalizedProper(v: Value)
    requires Proper(v)
    ensures Proper(Normalized(v))
    decreases v
  {
    match v
    case Array(items) =>
      forall i | 0 <= i < |items| ensures Proper(Normalized(v).items[i]) {
        NormalizedProper(items[i]);
      }
    case Object(es) =>
      ObjectProperties(es);
      var out := Normalized(v).entries;
      IncreasingInOrder(out);
      forall i | 0 <= i < |out| ensures Proper(out[i].1) {
        var k := out[i].0;
        var j := Find(es, k);
        NormalizedProper(es[j].1);
      }
    case _ =>
  }

  /** Normalising twice gives what normalising once gives. */
  lemma {:induction false} Idempotent(v: Value)
    requires Proper(v)
    ensures Normalized(Normalized(v)) == Normalized(v)
    decreases v
  {
    match v
    case Array(items) =>
      var once := Normalized(v);
      forall i | 0 <= i < |items| ensures Normalized(once).items[i] == once.items[i] {
        Idempotent(items[i]);
      }
    case Object(es) =>
      ObjectProperties(es);
      var out := Normalized(v).entries;
      IncreasingInOrder(out);
      ObjectProperties(out);
      var twice := Normalized(Object(out)).entries;
      IncreasingUnique(Keys(twice), Keys(out));
      forall i | 0 <= i < |out| ensures twice[i] == out[i] {
        var k := out[i].0;
        assert twice[i].0 == Keys(twice)[i] == k;
        assert Find(out, k) == i;
        var j := Find(es, k);
        Idempotent(es[j].1);
      }
    case _ =>
  }
}
