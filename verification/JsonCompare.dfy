/**
 cJSON_Compare: structural comparison, where objects are compared by looking up
 each member of one in the other.

 With distinct keys it decides equality of canonical forms, in which the members
 of an object are a multiset, so their order does not matter at any level.
 */
module JsonCompare {
  import opened Bytes
  import opened Json

  // ------------------------------------------------------------------
  // Numbers
  // ------------------------------------------------------------------

  const DBL_EPSILON: real := 1.0 / 4503599627370496.0

  function Fabs(x: real): real {
    if x < 0.0 then -x else x
  }

  predicate CompareDouble(a: real, b: real) {
    var maxVal := if Fabs(a) > Fabs(b) then Fabs(a) else Fabs(b);
    Fabs(a - b) <= maxVal * DBL_EPSILON
  }

  /** The tolerance is below 1 on 32-bit integers. */
  lemma IntegersCompareExactly(a: Int32, b: Int32)
    ensures CompareDouble(a as real, b as real) <==> a == b
  {
    var x, y := a as real, b as real;
    var maxVal := if Fabs(x) > Fabs(y) then Fabs(x) else Fabs(y);
    assert maxVal <= 2147483648.0;
    assert maxVal * DBL_EPSILON == maxVal / 4503599627370496.0 < 1.0;
    assert Fabs(x - y) == (if a < b then b - a else a - b) as real;
  }

  // ------------------------------------------------------------------
  // Keys
  // ------------------------------------------------------------------

  function ToLower(c: byte): byte {
    if 65 <= c <= 90 then c + 32 else c
  }

  function Lower(s: bytes): (l: bytes)
    ensures |l| == |s| && forall i :: 0 <= i < |s| ==> l[i] == ToLower(s[i])
  {
    if s == [] then [] else [ToLower(s[0])] + Lower(s[1..])
  }

  /** The key as the lookup sees it. */
  function Fold(key: bytes, caseSensitive: bool): bytes {
    if caseSensitive then key else Lower(key)
  }

  /** The same byte, or the same letter in upper and in lower case. */
  predicate SameLetter(c: byte, d: byte) {
    c == d || (65 <= c <= 90 && d == c + 32) || (65 <= d <= 90 && c == d + 32)
  }

  /** What it means for two keys to match. */
  predicate SameKey(k: bytes, l: bytes, caseSensitive: bool) {
    if caseSensitive then k == l
    else |k| == |l| && forall i :: 0 <= i < |k| ==> SameLetter(k[i], l[i])
  }

  lemma FoldIsSameKey(k: bytes, l: bytes, caseSensitive: bool)
    ensures Fold(k, caseSensitive) == Fold(l, caseSensitive) <==> SameKey(k, l, caseSensitive)
  {
    if !caseSensitive && |k| == |l| {
      assert Lower(k) == Lower(l) <==> forall i :: 0 <= i < |k| ==> Lower(k)[i] == Lower(l)[i];
    }
  }

  /** The byte at i of a C string. */
  function CharAt(s: bytes, i: nat): byte
    requires i <= |s|
  {
    if i == |s| then 0 else s[i]
  }

  /** Up to i the keys match, and there the lower-cased bytes differ by this much, the NUL behind a key included. */
  ghost predicate DiffersAt(s: bytes, t: bytes, i: nat, difference: int)
    requires i <= |s| && i <= |t|
  {
    && (forall j :: 0 <= j < i ==> SameLetter(s[j], t[j]))
    && difference == (ToLower(CharAt(s, i)) as int) - ToLower(CharAt(t, i))
  }

  /** case_insensitive_strcmp */
  method CaseInsensitiveStrcmp(s: bytes, t: bytes) returns (difference: int)
    requires CString(s) && CString(t)
    ensures exists i :: 0 <= i <= |s| && i <= |t| && DiffersAt(s, t, i, difference)
    ensures difference == 0 <==> |s| == |t| && forall i :: 0 <= i < |s| ==> SameLetter(s[i], t[i])
    ensures difference == 0 <==> Lower(s) == Lower(t)
  {
    var i := 0;
    while ToLower(CharAt(s, i)) == ToLower(CharAt(t, i))
      invariant i <= |s| && i <= |t| && forall j :: 0 <= j < i ==> SameLetter(s[j], t[j])
      decreases |s| - i
    {
      if CharAt(s, i) == 0 {
        DifferenceDecides(s, t, i, 0);
        return 0;
      }
      i := i + 1;
    }
    difference := (ToLower(CharAt(s, i)) as int) - ToLower(CharAt(t, i));
    DifferenceDecides(s, t, i, difference);
  }

  /** The first difference, or the end of both keys, decides. */
  lemma DifferenceDecides(s: bytes, t: bytes, i: nat, difference: int)
    requires i <= |s| && i <= |t| && DiffersAt(s, t, i, difference) && (difference == 0 ==> i == |s| == |t|)
    ensures difference == 0 <==> SameKey(s, t, false)
    ensures difference == 0 <==> Lower(s) == Lower(t)
  {
    FoldIsSameKey(s, t, false);
    assert i < |s| && i < |t| && SameLetter(s[i], t[i]) ==> ToLower(s[i]) == ToLower(t[i]);
  }

  /** The first member whose key matches. */
  function Find(members: seq<Member>, key: bytes, caseSensitive: bool): (r: Option<nat>)
    ensures r.Some? ==> r.value < |members| && Fold(members[r.value].key, caseSensitive) == Fold(key, caseSensitive)
    ensures forall i :: 0 <= i < |members| && Fold(members[i].key, caseSensitive) == Fold(key, caseSensitive) ==> r.Some? && r.value <= i
  {
    if members == [] then None
    else if Fold(members[0].key, caseSensitive) == Fold(key, caseSensitive) then Some(0)
    else match Find(members[1..], key, caseSensitive) case None => None case Some(i) => Some(i + 1)
  }

  /** get_object_item */
  method GetObjectItem(members: seq<Member>, name: bytes, caseSensitive: bool) returns (item: Option<nat>)
    requires CString(name) && forall i :: 0 <= i < |members| ==> CString(members[i].key)
    ensures item == Find(members, name, caseSensitive)
    ensures item.Some? ==> item.value < |members| && SameKey(members[item.value].key, name, caseSensitive)
    ensures forall j :: 0 <= j < (if item.Some? then item.value else |members|) ==>
              !SameKey(members[j].key, name, caseSensitive)
  {
    forall j | 0 <= j < |members|
      ensures Fold(members[j].key, caseSensitive) == Fold(name, caseSensitive) <==> SameKey(members[j].key, name, caseSensitive)
    {
      FoldIsSameKey(members[j].key, name, caseSensitive);
    }
    hide SameKey;
    hide Find;
    hide Lower;
    hide CString;
    var i := 0;
    while i < |members|
      invariant i <= |members|
      invariant forall j :: 0 <= j < i ==> Fold(members[j].key, caseSensitive) != Fold(name, caseSensitive)
    {
      if caseSensitive {
        if name == members[i].key {
          break;
        }
      } else {
        var difference := CaseInsensitiveStrcmp(name, members[i].key);
        if difference == 0 {
          break;
        }
      }
      i := i + 1;
    }
    item := if i < |members| then Some(i) else None;
  }

  /** The first member whose key is the same is the one that is found. */
  lemma FindIsFirstSame(members: seq<Member>, key: bytes, caseSensitive: bool)
    ensures var r := Find(members, key, caseSensitive);
            && (r.Some? ==> r.value < |members| && SameKey(members[r.value].key, key, caseSensitive))
            && forall j :: 0 <= j < (if r.Some? then r.value else |members|) ==> !SameKey(members[j].key, key, caseSensitive)
  {
    forall j | 0 <= j < |members|
      ensures Fold(members[j].key, caseSensitive) == Fold(key, caseSensitive) <==> SameKey(members[j].key, key, caseSensitive)
    {
      FoldIsSameKey(members[j].key, key, caseSensitive);
    }
    hide SameKey;
  }

  // ------------------------------------------------------------------
  // Comparing
  // ------------------------------------------------------------------

  function Size(v: Json): (n: nat)
    decreases v, 1
  {
    match v
    case Array(items) => 1 + ItemsSize(items)
    case Object(members) => 1 + MembersSize(members)
    case _ => 1
  }

  function ItemsSize(items: seq<Json>): (n: nat)
    ensures forall i :: 0 <= i < |items| ==> Size(items[i]) <= n
    decreases items, 0
  {
    if items == [] then 0 else Size(items[0]) + ItemsSize(items[1..])
  }

  function MembersSize(members: seq<Member>): (n: nat)
    ensures forall i :: 0 <= i < |members| ==> Size(members[i].value) <= n
    decreases members, 0
  {
    if members == [] then 0 else Size(members[0].value) + MembersSize(members[1..])
  }

  /** What cJSON_Compare answers. */
  predicate Compare(a: Json, b: Json, caseSensitive: bool)
    decreases Size(a) + Size(b), 1
  {
    match (a, b)
    case (Null, Null) => true
    case (Bool(x), Bool(y)) => x == y
    case (Number(x), Number(y)) => CompareDouble(x as real, y as real)
    case (String(x), String(y)) => x == y
    case (Array(x), Array(y)) =>
      |x| == |y| && forall i :: 0 <= i < |x| ==> Compare(x[i], y[i], caseSensitive)
    case (Object(x), Object(y)) =>
      && (forall i :: 0 <= i < |x| ==> MemberFound(x[i], y, caseSensitive))
      && (forall i :: 0 <= i < |y| ==> MemberFound(y[i], x, caseSensitive))
    case _ => false
  }

  /** A member has a match in the other object. */
  predicate MemberFound(m: Member, others: seq<Member>, caseSensitive: bool)
    decreases Size(m.value) + MembersSize(others), 2
  {
    var found := Find(others, m.key, caseSensitive);
    found.Some? && Compare(m.value, others[found.value].value, caseSensitive)
  }

  method CompareNodes(a: Json, b: Json, caseSensitive: bool) returns (equal: bool)
    requires Printable(a) && Printable(b)
    ensures equal == Compare(a, b, caseSensitive)
    decreases Size(a) + Size(b), 0
  {
    hide MemberFound;
    match (a, b)
    case (Null, Null) => equal := true;
    case (Bool(x), Bool(y)) => equal := x == y;
    case (Number(x), Number(y)) => equal := CompareDouble(x as real, y as real);
    case (String(x), String(y)) => equal := x == y;
    case (Array(x), Array(y)) =>
      var i := 0;
      while i < |x| && i < |y|
        invariant i <= |x| && i <= |y|
        invariant forall j :: 0 <= j < i ==> Compare(x[j], y[j], caseSensitive)
      {
        equal := CompareNodes(x[i], y[i], caseSensitive);
        if !equal {
          return;
        }
        i := i + 1;
      }
      equal := i == |x| && i == |y|;
    case (Object(x), Object(y)) =>
      equal := AllFound(x, y, caseSensitive);
      if equal {
        equal := AllFound(y, x, caseSensitive);
      }
    case _ => equal := false;
  }

  /** One of the two passes over an object's members. */
  method AllFound(members: seq<Member>, others: seq<Member>, caseSensitive: bool) returns (all: bool)
    requires forall i :: 0 <= i < |members| ==> CString(members[i].key) && Printable(members[i].value)
    requires forall i :: 0 <= i < |others| ==> CString(others[i].key) && Printable(others[i].value)
    ensures all <==> forall i :: 0 <= i < |members| ==> MemberFound(members[i], others, caseSensitive)
    decreases MembersSize(members) + MembersSize(others), 1
  {
    hide Find;
    hide Compare;
    hide Printable;
    hide CString;
    hide Size;
    hide MembersSize;
    var i := 0;
    while i < |members|
      invariant i <= |members| && forall j :: 0 <= j < i ==> MemberFound(members[j], others, caseSensitive)
    {
      var found := GetObjectItem(others, members[i].key, caseSensitive);
      if found.None? {
        assert !MemberFound(members[i], others, caseSensitive);
        return false;
      }
      var equal := CompareNodes(members[i].value, others[found.value].value, caseSensitive);
      if !equal {
        assert !MemberFound(members[i], others, caseSensitive);
        return false;
      }
      i := i + 1;
    }
    all := true;
  }

  // ------------------------------------------------------------------
  // Equality up to the order of members
  // ------------------------------------------------------------------

  /** A tree without the order of its members: an object is the multiset of its entries. */
  datatype Canonical =
    | Plain(value: Json)
    | List(items: seq<Canonical>)
    | Entries(entries: multiset<Entry>)

  datatype Entry = Entry(key: bytes, value: Canonical)

  function Canon(v: Json, caseSensitive: bool): Canonical
    decreases v, 1
  {
    match v
    case Array(items) => List(seq(|items|, i requires 0 <= i < |items| => Canon(items[i], caseSensitive)))
    case Object(members) => Entries(multiset(EntriesOf(members, caseSensitive)))
    case _ => Plain(v)
  }

  function EntriesOf(members: seq<Member>, caseSensitive: bool): (e: seq<Entry>)
    ensures |e| == |members|
    decreases members, 0
  {
    seq(|members|, i requires 0 <= i < |members| =>
      Entry(Fold(members[i].key, caseSensitive), Canon(members[i].value, caseSensitive)))
  }

  /** At every level the keys of an object differ. */
  predicate DistinctKeys(v: Json, caseSensitive: bool) {
    match v
    case Array(items) => forall i :: 0 <= i < |items| ==> DistinctKeys(items[i], caseSensitive)
    case Object(members) =>
      && KeysDiffer(members, caseSensitive)
      && forall i :: 0 <= i < |members| ==> DistinctKeys(members[i].value, caseSensitive)
    case _ => true
  }

  predicate KeysDiffer(members: seq<Member>, caseSensitive: bool) {
    forall i, j :: 0 <= i < j < |members| ==> Fold(members[i].key, caseSensitive) != Fold(members[j].key, caseSensitive)
  }

  predicate AllDiffer<T(==)>(s: seq<T>) {
    forall i, j :: 0 <= i < j < |s| ==> s[i] != s[j]
  }

  lemma {:induction false} NoDuplicates<T>(s: seq<T>, x: T)
    requires AllDiffer(s)
    ensures multiset(s)[x] == if x in s then 1 else 0
  {
    if s != [] {
      var front, last := s[..|s| - 1], s[|s| - 1];
      assert s == front + [last];
      NoDuplicates(front, x);
      assert last !in front;
    }
  }

  /** Without duplicates, the same elements make the same multiset. */
  lemma SameElements<T>(s: seq<T>, t: seq<T>)
    requires AllDiffer(s) && AllDiffer(t)
    ensures multiset(s) == multiset(t) <==> (forall i :: 0 <= i < |s| ==> s[i] in t) && (forall i :: 0 <= i < |t| ==> t[i] in s)
  {
    if (forall i :: 0 <= i < |s| ==> s[i] in t) && (forall i :: 0 <= i < |t| ==> t[i] in s) {
      forall x: T
        ensures multiset(s)[x] == multiset(t)[x]
      {
        NoDuplicates(s, x);
        NoDuplicates(t, x);
      }
    }
    if multiset(s) == multiset(t) {
      forall i | 0 <= i < |s| ensures s[i] in t { assert s[i] in multiset(s); }
      forall i | 0 <= i < |t| ensures t[i] in s { assert t[i] in multiset(t); }
    }
  }

  /** A member is found exactly when its entry is among the others', once the values are compared right. */
  lemma FoundIsEntry(m: Member, others: seq<Member>, caseSensitive: bool)
    requires KeysDiffer(others, caseSensitive)
    requires forall j :: 0 <= j < |others| ==>
               (Compare(m.value, others[j].value, caseSensitive) <==> Canon(m.value, caseSensitive) == Canon(others[j].value, caseSensitive))
    ensures MemberFound(m, others, caseSensitive)
       <==> Entry(Fold(m.key, caseSensitive), Canon(m.value, caseSensitive)) in EntriesOf(others, caseSensitive)
  {
    hide Compare;
    hide Canon;
    hide Fold;
    hide Find;
    var e := Entry(Fold(m.key, caseSensitive), Canon(m.value, caseSensitive));
    var found := Find(others, m.key, caseSensitive);
    if e in EntriesOf(others, caseSensitive) {
      var j :| 0 <= j < |others| && EntriesOf(others, caseSensitive)[j] == e;
      assert found.value == j;
    }
    if MemberFound(m, others, caseSensitive) {
      assert EntriesOf(others, caseSensitive)[found.value] == e;
    }
  }

  /** On trees with distinct keys the comparison is equality up to the order of members, at every level. */
  lemma {:induction false} CompareIsPermutation(a: Json, b: Json, caseSensitive: bool)
    requires DistinctKeys(a, caseSensitive) && DistinctKeys(b, caseSensitive)
    ensures Compare(a, b, caseSensitive) <==> Canon(a, caseSensitive) == Canon(b, caseSensitive)
    decreases Size(a) + Size(b), 1
  {
    match (a, b)
    case (Number(x), Number(y)) => IntegersCompareExactly(x, y);
    case (Array(x), Array(y)) => ArraysCompare(x, y, caseSensitive);
    case (Object(x), Object(y)) => ObjectsCompare(x, y, caseSensitive);
    case _ =>
  }

  lemma {:induction false} ArraysCompare(x: seq<Json>, y: seq<Json>, caseSensitive: bool)
    requires DistinctKeys(Array(x), caseSensitive) && DistinctKeys(Array(y), caseSensitive)
    ensures Compare(Array(x), Array(y), caseSensitive) <==> Canon(Array(x), caseSensitive) == Canon(Array(y), caseSensitive)
    decreases ItemsSize(x) + ItemsSize(y), 2
  {
    var s, t := Canon(Array(x), caseSensitive).items, Canon(Array(y), caseSensitive).items;
    if |x| == |y| {
      forall i | 0 <= i < |x|
        ensures Compare(x[i], y[i], caseSensitive) <==> s[i] == t[i]
      {
        CompareIsPermutation(x[i], y[i], caseSensitive);
      }
    }
  }

  lemma {:induction false} ObjectsCompare(x: seq<Member>, y: seq<Member>, caseSensitive: bool)
    requires DistinctKeys(Object(x), caseSensitive) && DistinctKeys(Object(y), caseSensitive)
    ensures Compare(Object(x), Object(y), caseSensitive) <==> Canon(Object(x), caseSensitive) == Canon(Object(y), caseSensitive)
    decreases MembersSize(x) + MembersSize(y), 3
  {
    var s, t := EntriesOf(x, caseSensitive), EntriesOf(y, caseSensitive);
    hide MemberFound;
    hide EntriesOf;
    PassFindsEntries(x, y, caseSensitive);
    PassFindsEntries(y, x, caseSensitive);
    hide DistinctKeys;
    hide AllDiffer;
    SameElements(s, t);
  }

  /** One pass of the comparison asks whether every entry is among the others'. */
  lemma {:induction false} PassFindsEntries(x: seq<Member>, y: seq<Member>, caseSensitive: bool)
    requires DistinctKeys(Object(x), caseSensitive) && DistinctKeys(Object(y), caseSensitive)
    ensures forall i :: 0 <= i < |x| ==>
      (MemberFound(x[i], y, caseSensitive) <==> EntriesOf(x, caseSensitive)[i] in EntriesOf(y, caseSensitive))
    ensures AllDiffer(EntriesOf(x, caseSensitive))
    decreases MembersSize(x) + MembersSize(y), 2
  {
    hide Compare;
    hide MemberFound;
    forall i | 0 <= i < |x|
      ensures MemberFound(x[i], y, caseSensitive) <==> EntriesOf(x, caseSensitive)[i] in EntriesOf(y, caseSensitive)
    {
      forall j | 0 <= j < |y|
        ensures Compare(x[i].value, y[j].value, caseSensitive) <==> Canon(x[i].value, caseSensitive) == Canon(y[j].value, caseSensitive)
      {
        CompareIsPermutation(x[i].value, y[j].value, caseSensitive);
      }
      FoundIsEntry(x[i], y, caseSensitive);
    }
  }

  /** So the comparison is an equivalence on such trees. */
  lemma CompareIsEquivalence(a: Json, b: Json, c: Json, caseSensitive: bool)
    requires DistinctKeys(a, caseSensitive) && DistinctKeys(b, caseSensitive) && DistinctKeys(c, caseSensitive)
    ensures Compare(a, a, caseSensitive)
    ensures Compare(a, b, caseSensitive) ==> Compare(b, a, caseSensitive)
    ensures Compare(a, b, caseSensitive) && Compare(b, c, caseSensitive) ==> Compare(a, c, caseSensitive)
  {
    hide Compare;
    CompareIsPermutation(a, a, caseSensitive);
    CompareIsPermutation(a, b, caseSensitive);
    CompareIsPermutation(b, a, caseSensitive);
    CompareIsPermutation(b, c, caseSensitive);
    CompareIsPermutation(a, c, caseSensitive);
  }

  /** With a key twice, a tree does not even equal a copy of itself. */
  lemma DuplicateKeysBreakReflexivity(key: bytes, x: Int32, y: Int32, caseSensitive: bool)
    requires x != y
    ensures var v := Object([Member(key, Number(x)), Member(key, Number(y))]); !Compare(v, v, caseSensitive)
  {
    var members := [Member(key, Number(x)), Member(key, Number(y))];
    IntegersCompareExactly(y, x);
    assert !MemberFound(members[1], members, caseSensitive);
  }
}
