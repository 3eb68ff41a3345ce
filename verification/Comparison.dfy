/**
 `cJSON_Compare`, case-sensitive: two passes of lookups for objects, a tolerance for numbers.
 On 32-bit numbers it decides equality of the JSON values that consistent trees denote, with
 objects read as finite maps, and rejects every tree that is not consistent.
 */
module Comparison {
  import opened Base
  import opened Values

  // ---------- the comparison ----------

  function Size(v: Value): nat {
    match v
    case Array(elems) => 1 + SizeOfItems(elems)
    case Object(members) => 1 + SizeOfItems(members)
    case _ => 1
  }

  function SizeOfItems(xs: Items): nat {
    match xs
    case Nil => 0
    case Cons(_, v, next) => 1 + Size(v) + SizeOfItems(next)
  }

  /** `get_object_item`: the first member of that name; a member without a name ends the search. */
  function Lookup(xs: Items, name: Option<bytes>): (r: Option<Value>)
    ensures r.Some? ==> Size(r.value) < SizeOfItems(xs)
  {
    if name.None? || xs.Nil? || xs.name.None? then None
    else if xs.name == name then Some(xs.value)
    else Lookup(xs.next, name)
  }

  function Abs(d: real): real { if d < 0.0 then -d else d }

  const EPSILON: real := 1.0 / 4503599627370496.0

  predicate SameNumber(a: real, b: real) {
    var largest := if Abs(a) > Abs(b) then Abs(a) else Abs(b);
    Abs(a - b) <= largest * EPSILON
  }

  predicate Compare(v: Value, w: Value)
    decreases Size(v) + Size(w), 0
  {
    match v
    case Null => w.Null?
    case False => w.False?
    case True => w.True?
    case Number(d) => w.Number? && SameNumber(d, w.num)
    case String(s) => w.String? && s == w.text
    case Array(xs) => w.Array? && CompareElements(xs, w.elems)
    case Object(xs) => w.Object? && Covered(xs, w.members) && Covered(w.members, xs)
  }

  predicate CompareElements(xs: Items, ys: Items)
    decreases SizeOfItems(xs) + SizeOfItems(ys), 1
  {
    if xs.Nil? || ys.Nil? then xs.Nil? && ys.Nil?
    else Compare(xs.value, ys.value) && CompareElements(xs.next, ys.next)
  }

  /** Every member of `xs` is found in `ys` under its name, with an equal value. */
  predicate Covered(xs: Items, ys: Items)
    decreases SizeOfItems(xs) + SizeOfItems(ys), 1
  {
    xs.Nil? ||
    (var found := Lookup(ys, xs.name);
     found.Some? && Compare(xs.value, found.value) && Covered(xs.next, ys))
  }

  // ---------- what a tree denotes ----------

  datatype Json =
    | JNull
    | JFalse
    | JTrue
    | JNumber(num: real)
    | JString(text: bytes)
    | JArray(elems: seq<Json>)
    | JObject(members: map<bytes, Json>)

  function Denote(v: Value): Json {
    match v
    case Null => JNull
    case False => JFalse
    case True => JTrue
    case Number(d) => JNumber(d)
    case String(s) => JString(s)
    case Array(xs) => JArray(DenoteElements(xs))
    case Object(xs) => JObject(DenoteMembers(xs))
  }

  function DenoteElements(xs: Items): seq<Json> {
    if xs.Nil? then [] else [Denote(xs.value)] + DenoteElements(xs.next)
  }

  function DenoteMembers(xs: Items): map<bytes, Json> {
    if xs.Nil? then map[]
    else if xs.name.None? then DenoteMembers(xs.next)
    else DenoteMembers(xs.next)[xs.name.value := Denote(xs.value)]
  }

  // ---------- which trees are meant ----------

  /** 32-bit numbers at every level. */
  predicate Int32Numbers(v: Value) {
    match v
    case Number(d) => IsInt32(d)
    case Array(xs) => Int32Items(xs)
    case Object(xs) => Int32Items(xs)
    case _ => true
  }

  predicate Int32Items(xs: Items) { xs.Cons? ==> Int32Numbers(xs.value) && Int32Items(xs.next) }

  /** At every level, the members of an object have names, and those of one name denote the same. */
  predicate Consistent(v: Value) {
    match v
    case Array(xs) => ConsistentItems(xs, false)
    case Object(xs) => ConsistentItems(xs, true)
    case _ => true
  }

  predicate ConsistentItems(xs: Items, named: bool) {
    xs.Cons? ==>
      && (named ==> xs.name.Some?)
      && (named && xs.name.value in DenoteMembers(xs.next) ==> DenoteMembers(xs.next)[xs.name.value] == Denote(xs.value))
      && Consistent(xs.value) && ConsistentItems(xs.next, named)
  }

  function NamesOf(xs: Items): set<Option<bytes>> {
    if xs.Nil? then {} else {xs.name} + NamesOf(xs.next)
  }

  /** At every level, the members of an object have distinct names. */
  predicate Keyed(v: Value) {
    match v
    case Array(xs) => KeyedItems(xs, false)
    case Object(xs) => KeyedItems(xs, true)
    case _ => true
  }

  predicate KeyedItems(xs: Items, named: bool) {
    xs.Cons? ==>
      && (named ==> xs.name.Some? && xs.name !in NamesOf(xs.next))
      && Keyed(xs.value) && KeyedItems(xs.next, named)
  }

  lemma {:induction false} NamesDenoted(xs: Items, name: bytes)
    ensures name in DenoteMembers(xs) <==> Some(name) in NamesOf(xs)
  {
    if xs.Cons? {
      NamesDenoted(xs.next, name);
    }
  }

  /** Distinct names are consistent. */
  lemma {:induction false} KeyedIsConsistent(v: Value)
    requires Keyed(v)
    ensures Consistent(v)
    decreases v, 0
  {
    match v
    case Array(xs) => KeyedItemsAreConsistent(xs, false);
    case Object(xs) => KeyedItemsAreConsistent(xs, true);
    case _ =>
  }

  lemma {:induction false} KeyedItemsAreConsistent(xs: Items, named: bool)
    requires KeyedItems(xs, named)
    ensures ConsistentItems(xs, named)
    decreases xs, 1
  {
    if xs.Cons? {
      KeyedIsConsistent(xs.value);
      KeyedItemsAreConsistent(xs.next, named);
      if named {
        NamesDenoted(xs.next, xs.name.value);
      }
    }
  }

  // ---------- comparison decides equality of what the trees denote ----------

  lemma ToleranceBelowOne(x: real)
    requires 0.0 <= x <= 2147483648.0
    ensures 0.0 <= x * EPSILON < 1.0
  {
    assert x * EPSILON == x / 4503599627370496.0;
  }

  lemma WholeApart(a: real, b: real)
    requires IsInt32(a) && IsInt32(b) && a != b
    ensures Abs(a - b) >= 1.0
  {
    var i, j := a.Floor, b.Floor;
    assert a == i as real && b == j as real && i != j;
    assert a - b == (i - j) as real;
  }

  lemma SameNumberIsEquality(a: real, b: real)
    requires IsInt32(a) && IsInt32(b)
    ensures SameNumber(a, b) <==> a == b
  {
    ToleranceBelowOne(if Abs(a) > Abs(b) then Abs(a) else Abs(b));
    if a != b {
      WholeApart(a, b);
    }
  }

  predicate AllNamed(xs: Items) { xs.Cons? ==> xs.name.Some? && AllNamed(xs.next) }

  predicate AllConsistent(xs: Items) { xs.Cons? ==> Consistent(xs.value) && AllConsistent(xs.next) }

  /** Every member is named and denotes what the map has under its name. */
  ghost predicate Matches(xs: Items, m: map<bytes, Json>) {
    xs.Cons? ==>
      && xs.name.Some? && xs.name.value in m && m[xs.name.value] == Denote(xs.value)
      && Matches(xs.next, m)
  }

  /** Lookup by name is lookup in the map that the members denote. */
  lemma {:induction false} LookupDenotes(xs: Items, name: bytes)
    requires AllNamed(xs)
    ensures Lookup(xs, Some(name)).Some? <==> name in DenoteMembers(xs)
    ensures var r := Lookup(xs, Some(name)); r.Some? ==>
      && Denote(r.value) == DenoteMembers(xs)[name]
      && (Int32Items(xs) ==> Int32Numbers(r.value)) && (AllConsistent(xs) ==> Consistent(r.value))
  {
    if xs.Cons? {
      LookupDenotes(xs.next, name);
    }
  }

  lemma {:induction false} CoveredIsNamed(xs: Items, ys: Items)
    ensures Covered(xs, ys) ==> AllNamed(xs)
  {
    if xs.Cons? {
      CoveredIsNamed(xs.next, ys);
    }
  }

  ghost predicate Submap(m: map<bytes, Json>, n: map<bytes, Json>) {
    forall k :: k in m ==> k in n && m[k] == n[k]
  }

  /** Members that all match one map agree among themselves. */
  lemma {:induction false} MatchesAgree(xs: Items, m: map<bytes, Json>)
    requires Matches(xs, m)
    ensures Submap(DenoteMembers(xs), m)
    ensures AllConsistent(xs) ==> ConsistentItems(xs, true)
  {
    if xs.Cons? {
      MatchesAgree(xs.next, m);
    }
  }

  /** Consistent members match the map that they denote. */
  lemma {:induction false} ConsistentMatches(xs: Items, m: map<bytes, Json>)
    requires ConsistentItems(xs, true) && Submap(DenoteMembers(xs), m)
    ensures Matches(xs, m) && AllNamed(xs) && AllConsistent(xs)
  {
    if xs.Cons? {
      var name := xs.name.value;
      var all, rest := DenoteMembers(xs), DenoteMembers(xs.next);
      assert all[name] == Denote(xs.value);
      assert forall k :: k in rest ==> k in all && all[k] == rest[k];
      ConsistentMatches(xs.next, m);
    }
  }

  /**
   On 32-bit numbers, `cJSON_Compare` holds exactly when both trees are consistent and denote
   the same.
   */
  lemma {:induction false} CompareDecides(v: Value, w: Value)
    requires Int32Numbers(v) && Int32Numbers(w)
    ensures Compare(v, w) <==> Consistent(v) && Consistent(w) && Denote(v) == Denote(w)
    decreases Size(v) + Size(w), 0
  {
    match v
    case Number(d) => if w.Number? { SameNumberIsEquality(d, w.num); }
    case Array(xs) => if w.Array? { ElementsDecide(xs, w.elems); }
    case Object(xs) => if w.Object? { MembersDecide(xs, w.members); }
    case _ =>
  }

  lemma {:induction false} ElementsDecide(xs: Items, ys: Items)
    requires Int32Items(xs) && Int32Items(ys)
    ensures CompareElements(xs, ys) <==> ConsistentItems(xs, false) && ConsistentItems(ys, false) && DenoteElements(xs) == DenoteElements(ys)
    decreases SizeOfItems(xs) + SizeOfItems(ys), 1
  {
    if xs.Cons? && ys.Cons? {
      CompareDecides(xs.value, ys.value);
      ElementsDecide(xs.next, ys.next);
      SameElements(Denote(xs.value), DenoteElements(xs.next), Denote(ys.value), DenoteElements(ys.next));
    }
  }

  lemma SameElements(a: Json, s: seq<Json>, b: Json, t: seq<Json>)
    ensures [a] + s == [b] + t <==> a == b && s == t
  {
    assert ([a] + s)[0] == a && ([a] + s)[1..] == s;
    assert ([b] + t)[0] == b && ([b] + t)[1..] == t;
  }

  lemma {:induction false} MembersDecide(xs: Items, ys: Items)
    requires Int32Items(xs) && Int32Items(ys)
    ensures Covered(xs, ys) && Covered(ys, xs) <==>
            ConsistentItems(xs, true) && ConsistentItems(ys, true) && DenoteMembers(xs) == DenoteMembers(ys)
    decreases SizeOfItems(xs) + SizeOfItems(ys), 2
  {
    var m, n := DenoteMembers(xs), DenoteMembers(ys);
    CoveredIsNamed(xs, ys);
    CoveredIsNamed(ys, xs);
    if Covered(xs, ys) && Covered(ys, xs) {
      CoveredMatches(xs, ys);
      CoveredMatches(ys, xs);
      MatchesAgree(xs, n);
      MatchesAgree(ys, m);
      assert m == n;
    }
    if ConsistentItems(xs, true) && ConsistentItems(ys, true) && m == n {
      ConsistentMatches(xs, n);
      ConsistentMatches(ys, m);
      CoveredMatches(xs, ys);
      CoveredMatches(ys, xs);
    }
  }

  /** One pass of lookups. */
  lemma {:induction false} CoveredMatches(xs: Items, ys: Items)
    requires Int32Items(xs) && Int32Items(ys) && AllNamed(ys)
    ensures Covered(xs, ys) ==> Matches(xs, DenoteMembers(ys)) && AllConsistent(xs)
    ensures Matches(xs, DenoteMembers(ys)) && AllConsistent(xs) && AllConsistent(ys) ==> Covered(xs, ys)
    decreases SizeOfItems(xs) + SizeOfItems(ys), 1
  {
    if xs.Cons? && xs.name.Some? {
      LookupDenotes(ys, xs.name.value);
      CoveredMatches(xs.next, ys);
      var found := Lookup(ys, xs.name);
      if found.Some? {
        CompareDecides(xs.value, found.value);
      }
    }
  }

  // ---------- consequences ----------

  /** A tree compares equal to a copy of itself exactly when it is consistent. */
  lemma CompareSelf(v: Value)
    requires Int32Numbers(v)
    ensures Compare(v, v) <==> Consistent(v)
  {
    CompareDecides(v, v);
  }

  /** With distinct names, comparing is equality of what the trees denote. */
  lemma CompareIsEquality(v: Value, w: Value)
    requires Int32Numbers(v) && Int32Numbers(w) && Keyed(v) && Keyed(w)
    ensures Compare(v, w) <==> Denote(v) == Denote(w)
  {
    CompareDecides(v, w);
    KeyedIsConsistent(v);
    KeyedIsConsistent(w);
  }

  /** Symmetric and transitive on all trees with 32-bit numbers, and reflexive on the consistent ones. */
  lemma CompareIsEquivalence(u: Value, v: Value, w: Value)
    requires Int32Numbers(u) && Int32Numbers(v) && Int32Numbers(w)
    ensures Compare(u, v) ==> Compare(v, u)
    ensures Compare(u, v) && Compare(v, w) ==> Compare(u, w)
    ensures Consistent(u) ==> Compare(u, u)
  {
    CompareDecides(u, u);
    CompareDecides(u, v);
    CompareDecides(v, u);
    CompareDecides(v, w);
    CompareDecides(u, w);
  }

  // ---------- the order of members ----------

  /** The members, with their names, in no order. */
  function Bag(xs: Items): multiset<(Option<bytes>, Value)> {
    if xs.Nil? then multiset{} else multiset{(xs.name, xs.value)} + Bag(xs.next)
  }

  ghost predicate Fits(e: (Option<bytes>, Value), m: map<bytes, Json>) {
    e.0.Some? && e.0.value in m && m[e.0.value] == Denote(e.1)
  }

  lemma {:induction false} MatchesBag(xs: Items, m: map<bytes, Json>)
    ensures Matches(xs, m) <==> forall e :: e in Bag(xs) ==> Fits(e, m)
  {
    if xs.Cons? {
      MatchesBag(xs.next, m);
      BagSplit(xs);
      var e := (xs.name, xs.value);
      assert e in Bag(xs) && e.0 == xs.name && e.1 == xs.value;
    }
  }

  lemma BagSplit(xs: Items)
    requires xs.Cons?
    ensures forall e :: e in Bag(xs) <==> e == (xs.name, xs.value) || e in Bag(xs.next)
  {
  }

  lemma {:induction false} ItemsBag(xs: Items)
    ensures AllConsistent(xs) <==> forall e :: e in Bag(xs) ==> Consistent(e.1)
    ensures Int32Items(xs) <==> forall e :: e in Bag(xs) ==> Int32Numbers(e.1)
  {
    if xs.Cons? {
      ItemsBag(xs.next);
      BagSplit(xs);
      var e := (xs.name, xs.value);
      assert e in Bag(xs) && e.0 == xs.name && e.1 == xs.value;
    }
  }

  lemma PermutedMatches(xs: Items, ys: Items, m: map<bytes, Json>)
    requires Bag(xs) == Bag(ys)
    ensures Matches(xs, m) <==> Matches(ys, m)
  {
    MatchesBag(xs, m);
    MatchesBag(ys, m);
  }

  lemma PermutedItems(xs: Items, ys: Items)
    requires Bag(xs) == Bag(ys)
    ensures AllConsistent(xs) <==> AllConsistent(ys)
    ensures Int32Items(xs) <==> Int32Items(ys)
  {
    ItemsBag(xs);
    ItemsBag(ys);
  }

  /** Consistent members denote the same map in any order. */
  lemma PermutedAgree(xs: Items, ys: Items)
    requires Bag(xs) == Bag(ys) && ConsistentItems(xs, true)
    ensures ConsistentItems(ys, true) && DenoteMembers(xs) == DenoteMembers(ys)
  {
    hide Bag, Matches, DenoteMembers, AllConsistent;
    var m, n := DenoteMembers(xs), DenoteMembers(ys);
    ConsistentMatches(xs, m);
    PermutedMatches(xs, ys, m);
    PermutedItems(xs, ys);
    MatchesAgree(ys, m);
    ConsistentMatches(ys, n);
    PermutedMatches(xs, ys, n);
    MatchesAgree(xs, n);
    assert m == n;
  }

  /** Comparing ignores the order of members: objects with the same members compare alike with everything. */
  lemma CompareIgnoresOrder(xs: Items, ys: Items, w: Value)
    requires Bag(xs) == Bag(ys) && Int32Items(xs) && Int32Numbers(w)
    ensures Compare(Object(xs), w) <==> Compare(Object(ys), w)
    ensures ConsistentItems(xs, true) ==> Compare(Object(xs), Object(ys))
  {
    PermutedItems(xs, ys);
    CompareDecides(Object(xs), w);
    CompareDecides(Object(ys), w);
    CompareDecides(Object(xs), Object(ys));
    if ConsistentItems(xs, true) {
      PermutedAgree(xs, ys);
    }
    if ConsistentItems(ys, true) {
      PermutedAgree(ys, xs);
    }
  }

  // ---------- the tolerance ----------

  lemma AbsTimes(k: real, a: real)
    ensures Abs(k * a) == Abs(k) * Abs(a)
  {
    if k >= 0.0 && a >= 0.0 {
      assert k * a >= 0.0;
    } else if k < 0.0 && a < 0.0 {
      assert k * a == -k * -a >= 0.0;
    } else if k < 0.0 {
      assert k * a == -(-k * a) <= 0.0;
    } else {
      assert k * a == -(k * -a) <= 0.0;
    }
  }

  lemma OrderTimes(k: real, a: real, b: real, ka: real, kb: real)
    requires k > 0.0 && ka == k * a && kb == k * b
    ensures ka <= kb <==> a <= b
  {
    assert kb - ka == k * (b - a);
    if a <= b {
      assert k * (b - a) >= 0.0;
    } else {
      assert k * (a - b) > 0.0;
    }
  }

  /** The tolerance is relative: it does not change when both numbers are scaled. */
  lemma ToleranceIsRelative(k: real, a: real, b: real)
    requires k != 0.0
    ensures SameNumber(k * a, k * b) <==> SameNumber(a, b)
  {
    hide Abs;
    AbsPositive(k);
    AbsTimes(k, a);
    AbsTimes(k, b);
    DifferenceTimes(k, a, b);
    OrderTimes(Abs(k), Abs(a), Abs(b), Abs(k * a), Abs(k * b));
    var m := if Abs(a) > Abs(b) then Abs(a) else Abs(b);
    var n := if Abs(k * a) > Abs(k * b) then Abs(k * a) else Abs(k * b);
    var room, scaled := m * EPSILON, n * EPSILON;
    assert scaled == Abs(k) * room;
    OrderTimes(Abs(k), Abs(a - b), room, Abs(k * a - k * b), scaled);
  }

  lemma DifferenceTimes(k: real, a: real, b: real)
    ensures Abs(k * a - k * b) == Abs(k) * Abs(a - b)
  {
    var d, kd := a - b, k * a - k * b;
    assert kd == k * d;
    AbsTimes(k, d);
  }

  lemma AbsPositive(k: real)
    requires k != 0.0
    ensures Abs(k) > 0.0
  {
  }

  /** Two numbers of which the other is at most as large are the same when they differ by at most 2^-52 of the larger. */
  lemma ToleranceAtOne(d: real)
    ensures -1.0 <= d <= 1.0 ==> (SameNumber(1.0, d) <==> 4503599627370496.0 * (1.0 - d) <= 1.0)
    ensures SameNumber(d, 1.0) <==> SameNumber(1.0, d)
  {
  }
}
