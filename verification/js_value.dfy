/**
 * The JavaScript values the validator and the fixture normaliser look at:
 * JSON-like data plus `undefined`.  An object is the list of its own
 * properties; `Proper` says when that list is in the order JavaScript
 * enumerates them (section 10.1.11.1 of ECMA-262): array indices first, in
 * ascending numeric order, then the other names in the order they were added.
 */
module JsValues {

  datatype Value =
    | Undefined
    | Null
    | Bool(b: bool)
    | Number(n: real)
    | Str(s: string)
    | Array(items: seq<Value>)
    | Object(entries: seq<(string, Value)>)

  /** JavaScript truthiness (NaN is not modelled, so a number is falsy only at zero). */
  predicate Truthy(v: Value)
  {
    match v
    case Undefined => false
    case Null => false
    case Bool(b) => b
    case Number(n) => n != 0.0
    case Str(s) => s != ""
    case Array(_) => true
    case Object(_) => true
  }

  /** The property names of an object, in enumeration order. */
  function Keys(es: seq<(string, Value)>): (ks: seq<string>)
    ensures |ks| == |es|
    ensures forall i :: 0 <= i < |es| ==> ks[i] == es[i].0
  {
    seq(|es|, i requires 0 <= i < |es| => es[i].0)
  }

  /** The position of property k, which the object has. */
  function Find(es: seq<(string, Value)>, k: string): (i: nat)
    requires k in Keys(es)
    ensures i < |es| && es[i].0 == k
    ensures forall j :: 0 <= j < i ==> es[j].0 != k
  {
    if es[0].0 == k then 0
    else
      assert Keys(es) == [es[0].0] + Keys(es[1..]);
      1 + Find(es[1..], k)
  }

  /** Reading property k: `undefined` when the value is not an object or lacks the property. */
  function Get(v: Value, k: string): (r: Value)
    ensures v.Object? && k in Keys(v.entries) ==> r == v.entries[Find(v.entries, k)].1
    ensures !(v.Object? && k in Keys(v.entries)) ==> r == Undefined
  {
    if v.Object? && k in Keys(v.entries) then v.entries[Find(v.entries, k)].1 else Undefined
  }

  /** No name is listed twice. */
  predicate Unique(ks: seq<string>)
  {
    forall i, j :: 0 <= i < j < |ks| ==> ks[i] != ks[j]
  }

  predicate IsDigit(c: char)
  {
    '0' <= c <= '9'
  }

  function DigitOf(c: char): (d: nat)
    requires IsDigit(c)
    ensures d <= 9 && (d == 0 <==> c == '0')
  {
    c as int - '0' as int
  }

  /** The number a string of decimal digits denotes. */
  function DigitsValue(k: string): nat
    requires forall i :: 0 <= i < |k| ==> IsDigit(k[i])
  {
    if |k| == 0 then 0 else DigitsValue(k[..|k| - 1]) * 10 + DigitOf(k[|k| - 1])
  }

  /**
   * An array index (section 6.1.7 of ECMA-262): the canonical decimal form of
   * an integer below 2^32 - 1, so "0" or digits without a leading zero.
   */
  predicate IsIndex(k: string)
  {
    && |k| > 0 && (forall i :: 0 <= i < |k| ==> IsDigit(k[i]))
    && (k[0] != '0' || |k| == 1)
    && DigitsValue(k) < 0xFFFF_FFFF
  }

  /** The number an array index stands for. */
  function IndexValue(k: string): nat
    requires IsIndex(k)
  {
    DigitsValue(k)
  }

  /** Digits that do not start with a zero denote a positive number. */
  lemma {:induction false} LeadingDigitPositive(k: string)
    requires |k| > 0 && (forall i :: 0 <= i < |k| ==> IsDigit(k[i])) && k[0] != '0'
    ensures DigitsValue(k) >= 1
    decreases |k|
  {
    if |k| > 1 {
      LeadingDigitPositive(k[..|k| - 1]);
    }
  }

  /** Different array indices stand for different numbers. */
  lemma {:induction false} IndexValueInjective(a: string, b: string)
    requires IsIndex(a) && IsIndex(b) && IndexValue(a) == IndexValue(b)
    ensures a == b
    decreases |a|
  {
    var m, n := |a|, |b|;
    var pa, pb := a[..m - 1], b[..n - 1];
    if m == 1 && n == 1 {
      assert a == [a[0]] && b == [b[0]];
    } else if m == 1 || n == 1 {
      if m == 1 {
        LeadingDigitPositive(pb);
      } else {
        LeadingDigitPositive(pa);
      }
      assert false;
    } else {
      var x, y := DigitsValue(pa), DigitsValue(pb);
      var da, db := DigitOf(a[m - 1]), DigitOf(b[n - 1]);
      assert x * 10 + da == y * 10 + db;
      assert da == db && x == y;
      LeadingDigitPositive(pa);
      IndexValueInjective(pa, pb);
      assert a == pa + [a[m - 1]] && b == pb + [b[n - 1]];
    }
  }

  /** Where a new array index k goes: after the indices below it, before everything else. */
  function IndexSlot(es: seq<(string, Value)>, k: string): (p: nat)
    requires IsIndex(k)
    ensures p <= |es|
    ensures forall j :: 0 <= j < p ==> IsIndex(es[j].0) && IndexValue(es[j].0) < IndexValue(k)
    ensures p < |es| ==> !(IsIndex(es[p].0) && IndexValue(es[p].0) < IndexValue(k))
  {
    if |es| == 0 || !(IsIndex(es[0].0) && IndexValue(es[0].0) < IndexValue(k)) then 0
    else 1 + IndexSlot(es[1..], k)
  }

  /**
   * `o[k] = v` on an ordinary object: a property it has keeps its place and
   * takes the new value; a new array index goes in numeric order among the
   * indices, ahead of the other names; any other new name goes last.
   */
  function Assign(es: seq<(string, Value)>, k: string, v: Value): (r: seq<(string, Value)>)
    ensures k in Keys(es) ==> |r| == |es| && Keys(r) == Keys(es)
    ensures k !in Keys(es) ==> multiset(r) == multiset(es + [(k, v)])
  {
    if k in Keys(es) then es[Find(es, k) := (k, v)]
    else if IsIndex(k) then
      var p := IndexSlot(es, k);
      assert es == es[..p] + es[p..];
      es[..p] + [(k, v)] + es[p..]
    else es + [(k, v)]
  }

  /** An object's property list is one JavaScript can hold: unique names, array indices first and ascending. */
  predicate InOrder(es: seq<(string, Value)>)
  {
    && Unique(Keys(es))
    && (forall i, j :: 0 <= i < j < |es| && IsIndex(es[j].0) ==> IsIndex(es[i].0) && IndexValue(es[i].0) < IndexValue(es[j].0))
  }

  /** Every object, at any depth, has a property list JavaScript can hold. */
  predicate Proper(v: Value)
  {
    match v
    case Array(items) => forall i :: 0 <= i < |items| ==> Proper(items[i])
    case Object(es) => InOrder(es) && forall i :: 0 <= i < |es| ==> Proper(es[i].1)
    case _ => true
  }
}
