/** `OrderLiteral` (uel.core): an ordered pair of names with a truth value
    that can be set, a hash fixed when the pair is made, and a rendering. */
module OrderLiterals {
  import opened Wrappers
  import opened JavaInts

  /** `String.hashCode`, left abstract. */
  type StringHash = string -> Int32

  datatype OrderLiteral = OrderLiteral(first: string, second: string, value: bool, hash: Int32)

  /** The hash the constructor computes, in wrapping `int` arithmetic. */
  function PairHash(one: string, two: string, h: StringHash): (r: Int32)
    ensures (r - (h(one) + 31 * h(two))) % Modulus == 0
  {
    Wrap(h(one) + 31 * h(two))
  }

  /** The stored hash is the one of the pair under `h`. */
  predicate Hashed(l: OrderLiteral, h: StringHash) {
    l.hash == PairHash(l.first, l.second, h)
  }

  /** The constructor (lines 22-26): the pair, the value false, and the hash
      of the pair. */
  function Make(one: string, two: string, h: StringHash): (l: OrderLiteral)
    ensures l.first == one && l.second == two && !l.value
    ensures Hashed(l, h)
  {
    OrderLiteral(one, two, false, PairHash(one, two, h))
  }

  /** `setValue` (lines 70-72): only the value changes. */
  function SetValue(l: OrderLiteral, t: bool): (r: OrderLiteral)
    ensures r.value == t
    ensures r.first == l.first && r.second == l.second && r.hash == l.hash
  {
    l.(value := t)
  }

  /** `getValue` (lines 50-52). */
  function GetValue(l: OrderLiteral): (r: bool)
    ensures SetValue(l, r) == l
  {
    l.value
  }

  /** `hashCode` (lines 54-57): the hash stored at construction. */
  function HashCode(l: OrderLiteral): Int32 {
    l.hash
  }

  /** `setValue` never changes the hash. */
  lemma HashIgnoresValue(l: OrderLiteral, t: bool, h: StringHash)
    requires Hashed(l, h)
    ensures HashCode(SetValue(l, t)) == HashCode(l) == PairHash(l.first, l.second, h)
  {
  }

  /** `equals` (lines 28-37); `None` is an object that is not an order
      literal, or null. */
  predicate Equals(l: OrderLiteral, o: Option<OrderLiteral>) {
    o.Some? && l.value == o.value.value && l.first == o.value.first && l.second == o.value.second
  }

  /** `isOrder` (lines 59-62). */
  function IsOrder(l: OrderLiteral): (r: bool)
    ensures r
  {
    true
  }

  /** `isSubsumption` (lines 64-67). */
  function IsSubsumption(l: OrderLiteral): (r: bool)
    ensures !r
  {
    false
  }

  /** `toString` (lines 75-82): `(first>second)`. */
  function ToString(l: OrderLiteral): (s: string)
    ensures |s| == |l.first| + |l.second| + 3
  {
    "(" + l.first + ">" + l.second + ")"
  }

  /** Reads `(first>second)` back, splitting at the first `>`. */
  function ParseOrder(s: string): Option<(string, string)> {
    if |s| < 3 || s[0] != '(' || s[|s| - 1] != ')' then None
    else
      var inner := s[1..|s| - 1];
      if '>' !in inner then None
      else
        var k := FirstIndex(inner, '>');
        Some((inner[..k], inner[k + 1..]))
  }

  function FirstIndex(s: string, c: char): (k: nat)
    requires c in s
    ensures k < |s| && s[k] == c && c !in s[..k]
  {
    if s[0] == c then 0
    else
      var k := FirstIndex(s[1..], c);
      assert s[..k + 1] == [s[0]] + s[1..][..k];
      k + 1
  }

  /** Made with the same hash function, two literals are `equals` exactly
      when they are the same value; so equal literals have equal hashes. */
  lemma EqualsIsIdentity(a: OrderLiteral, b: OrderLiteral, h: StringHash)
    requires Hashed(a, h) && Hashed(b, h)
    ensures Equals(a, Some(b)) <==> a == b
    ensures Equals(a, Some(b)) ==> HashCode(a) == HashCode(b)
  {
  }

  /** Setting the value keeps the stored hash that of the pair. */
  lemma SetValueHashed(l: OrderLiteral, t: bool, h: StringHash)
    requires Hashed(l, h)
    ensures Hashed(SetValue(l, t), h)
    ensures Equals(SetValue(l, t), Some(l)) <==> t == l.value
  {
  }

  /** `equals` is an equivalence on order literals and never holds for other
      objects. */
  lemma EqualsIsEquivalence(a: OrderLiteral, b: OrderLiteral, c: OrderLiteral)
    ensures Equals(a, Some(a))
    ensures Equals(a, Some(b)) ==> Equals(b, Some(a))
    ensures Equals(a, Some(b)) && Equals(b, Some(c)) ==> Equals(a, Some(c))
    ensures !Equals(a, None)
  {
  }

  /** The rendering reads back when the first name holds no `>`. */
  lemma ToStringRoundTrip(l: OrderLiteral)
    requires '>' !in l.first
    ensures ParseOrder(ToString(l)) == Some((l.first, l.second))
  {
    var s := ToString(l);
    var inner := s[1..|s| - 1];
    assert inner == l.first + ">" + l.second;
    assert inner[|l.first|] == '>';
    var k := FirstIndex(inner, '>');
    assert inner[..|l.first|] == l.first;
    assert inner[k + 1..] == l.second;
  }

  /** Without that condition the rendering is ambiguous. */
  lemma ToStringAmbiguous()
    ensures ToString(OrderLiteral("a>b", "c", false, 0)) == ToString(OrderLiteral("a", "b>c", false, 0))
  {
  }
}
