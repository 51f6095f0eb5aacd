/**
 cJSON_Compare on objects with repeated keys.

 An object means a map from its keys to their values.  A tree is consistent when
 no repeated key has two meanings, at any level.  Exactly the consistent trees
 compare equal to themselves, and on them the comparison is equality of meaning.
 */
module JsonConsistent {
  import opened Bytes
  import opened Json
  import opened JsonCompare

  datatype Meaning =
    | Scalar(value: Json)
    | Sequence(items: seq<Meaning>)
    | Mapping(entries: map<bytes, Meaning>)

  function MeaningOf(v: Json, caseSensitive: bool): Meaning
    decreases v, 1
  {
    match v
    case Array(items) => Sequence(seq(|items|, i requires 0 <= i < |items| => MeaningOf(items[i], caseSensitive)))
    case Object(members) => Mapping(MapOf(members, caseSensitive))
    case _ => Scalar(v)
  }

  /** The first member with a key gives its value. */
  function MapOf(members: seq<Member>, caseSensitive: bool): map<bytes, Meaning>
    decreases members, 0
  {
    if members == [] then map[] else
      MapOf(members[1..], caseSensitive)[Fold(members[0].key, caseSensitive) := MeaningOf(members[0].value, caseSensitive)]
  }

  /** A repeated key has the same meaning each time, at every level. */
  predicate Consistent(v: Json, caseSensitive: bool) {
    match v
    case Array(items) => forall i :: 0 <= i < |items| ==> Consistent(items[i], caseSensitive)
    case Object(members) =>
      && (forall i :: 0 <= i < |members| ==> Consistent(members[i].value, caseSensitive))
      && OneMeaning(members, caseSensitive)
    case _ => true
  }

  predicate OneMeaning(members: seq<Member>, caseSensitive: bool) {
    forall i, j :: 0 <= i < |members| && 0 <= j < |members|
      && Fold(members[i].key, caseSensitive) == Fold(members[j].key, caseSensitive)
      ==> MeaningOf(members[i].value, caseSensitive) == MeaningOf(members[j].value, caseSensitive)
  }

  /** Distinct keys are consistent, so everything here holds of such trees too. */
  lemma {:induction false} DistinctIsConsistent(v: Json, caseSensitive: bool)
    requires DistinctKeys(v, caseSensitive)
    ensures Consistent(v, caseSensitive)
  {
    match v
    case Array(items) =>
      forall i | 0 <= i < |items|
        ensures Consistent(items[i], caseSensitive)
      {
        DistinctIsConsistent(items[i], caseSensitive);
      }
    case Object(members) =>
      forall i | 0 <= i < |members|
        ensures Consistent(members[i].value, caseSensitive)
      {
        DistinctIsConsistent(members[i].value, caseSensitive);
      }
    case _ =>
  }

  // ------------------------------------------------------------------
  // Looking up and the map
  // ------------------------------------------------------------------

  /** The map holds what the lookup finds. */
  lemma {:induction false} MapIsLookup(members: seq<Member>, key: bytes, caseSensitive: bool)
    ensures var found := Find(members, key, caseSensitive); var m := MapOf(members, caseSensitive);
            && (Fold(key, caseSensitive) in m <==> found.Some?)
            && (found.Some? ==> m[Fold(key, caseSensitive)] == MeaningOf(members[found.value].value, caseSensitive))
    decreases members
  {
    hide Fold;
    hide MeaningOf;
    if members != [] {
      MapIsLookup(members[1..], key, caseSensitive);
    }
  }

  /** Every key of the map is some member's. */
  lemma {:induction false} KeyOfMap(members: seq<Member>, k: bytes, caseSensitive: bool) returns (i: nat)
    requires k in MapOf(members, caseSensitive)
    ensures i < |members| && Fold(members[i].key, caseSensitive) == k
    decreases members
  {
    hide Fold;
    hide MeaningOf;
    if k == Fold(members[0].key, caseSensitive) {
      i := 0;
    } else {
      var j := KeyOfMap(members[1..], k, caseSensitive);
      i := j + 1;
    }
  }

  /** Where keys have one meaning each, every member is an entry of the map. */
  lemma MemberIsEntry(members: seq<Member>, i: nat, caseSensitive: bool)
    requires i < |members| && OneMeaning(members, caseSensitive)
    ensures var m := MapOf(members, caseSensitive); var k := Fold(members[i].key, caseSensitive);
            k in m && m[k] == MeaningOf(members[i].value, caseSensitive)
  {
    hide Fold;
    hide MapOf;
    hide MeaningOf;
    MapIsLookup(members, members[i].key, caseSensitive);
  }

  /** The members of x mean what the map of y says. */
  predicate MeansThat(x: seq<Member>, y: seq<Member>, caseSensitive: bool) {
    var m := MapOf(y, caseSensitive);
    forall i :: 0 <= i < |x| ==>
      && Fold(x[i].key, caseSensitive) in m
      && m[Fold(x[i].key, caseSensitive)] == MeaningOf(x[i].value, caseSensitive)
  }

  /** Two objects whose members each mean what the other says are the same map. */
  lemma SameMaps(x: seq<Member>, y: seq<Member>, caseSensitive: bool)
    requires MeansThat(x, y, caseSensitive) && MeansThat(y, x, caseSensitive)
    ensures OneMeaning(x, caseSensitive) && MapOf(x, caseSensitive) == MapOf(y, caseSensitive)
  {
    hide Fold;
    hide MapOf;
    hide MeaningOf;
    MapWithin(x, y, caseSensitive);
    MapWithin(y, x, caseSensitive);
  }

  lemma MapWithin(x: seq<Member>, y: seq<Member>, caseSensitive: bool)
    requires MeansThat(x, y, caseSensitive)
    ensures OneMeaning(x, caseSensitive)
    ensures var m, n := MapOf(x, caseSensitive), MapOf(y, caseSensitive); forall k :: k in m ==> k in n && m[k] == n[k]
  {
    hide Fold;
    hide MapOf;
    hide MeaningOf;
    var m, n := MapOf(x, caseSensitive), MapOf(y, caseSensitive);
    forall k | k in m
      ensures k in n && m[k] == n[k]
    {
      var i := KeyOfMap(x, k, caseSensitive);
      MemberIsEntry(x, i, caseSensitive);
    }
  }

  // ------------------------------------------------------------------
  // Comparing with a consistent tree
  // ------------------------------------------------------------------

  /** What compares equal to a consistent tree is consistent and means the same. */
  lemma {:induction false} EqualMeansSame(a: Json, b: Json, caseSensitive: bool)
    requires Compare(a, b, caseSensitive) && Consistent(b, caseSensitive)
    ensures Consistent(a, caseSensitive) && MeaningOf(a, caseSensitive) == MeaningOf(b, caseSensitive)
    decreases Size(a) + Size(b), 1
  {
    match (a, b)
    case (Number(x), Number(y)) => IntegersCompareExactly(x, y);
    case (Array(x), Array(y)) =>
      forall i | 0 <= i < |x|
        ensures Consistent(x[i], caseSensitive) && MeaningOf(x[i], caseSensitive) == MeaningOf(y[i], caseSensitive)
      {
        EqualMeansSame(x[i], y[i], caseSensitive);
      }
    case (Object(x), Object(y)) =>
      hide OneMeaning;
      hide MapOf;
      hide MemberFound;
      FoundMeansThat(x, y, caseSensitive);
      FoundMeansThat(y, x, caseSensitive);
      SameMaps(x, y, caseSensitive);
    case _ =>
  }

  /** One pass: a member that is found in a consistent object means what that object says. */
  lemma {:induction false} FoundMeansThat(x: seq<Member>, y: seq<Member>, caseSensitive: bool)
    requires forall i :: 0 <= i < |x| ==> MemberFound(x[i], y, caseSensitive)
    requires forall j :: 0 <= j < |y| ==> Consistent(y[j].value, caseSensitive)
    ensures MeansThat(x, y, caseSensitive)
    ensures forall i :: 0 <= i < |x| ==> Consistent(x[i].value, caseSensitive)
    decreases MembersSize(x) + MembersSize(y), 2
  {
    hide Fold;
    hide MapOf;
    hide Consistent;
    hide Compare;
    forall i | 0 <= i < |x|
      ensures Consistent(x[i].value, caseSensitive)
      ensures Fold(x[i].key, caseSensitive) in MapOf(y, caseSensitive)
      ensures MapOf(y, caseSensitive)[Fold(x[i].key, caseSensitive)] == MeaningOf(x[i].value, caseSensitive)
    {
      assert MemberFound(x[i], y, caseSensitive);
      var j := Find(y, x[i].key, caseSensitive).value;
      EqualMeansSame(x[i].value, y[j].value, caseSensitive);
      MapIsLookup(y, x[i].key, caseSensitive);
    }
  }

  /** Consistent trees that mean the same compare equal. */
  lemma {:induction false} SameMeaningIsEqual(a: Json, b: Json, caseSensitive: bool)
    requires Consistent(a, caseSensitive) && Consistent(b, caseSensitive)
    requires MeaningOf(a, caseSensitive) == MeaningOf(b, caseSensitive)
    ensures Compare(a, b, caseSensitive)
    decreases Size(a) + Size(b), 1
  {
    match (a, b)
    case (Number(x), Number(y)) => IntegersCompareExactly(x, y);
    case (Array(x), Array(y)) =>
      var s, t := MeaningOf(a, caseSensitive).items, MeaningOf(b, caseSensitive).items;
      forall i | 0 <= i < |x|
        ensures Compare(x[i], y[i], caseSensitive)
      {
        assert s[i] == t[i];
        SameMeaningIsEqual(x[i], y[i], caseSensitive);
      }
    case (Object(x), Object(y)) =>
      hide MapOf;
      hide MemberFound;
      SameMapIsFound(x, y, caseSensitive);
      SameMapIsFound(y, x, caseSensitive);
    case _ =>
  }

  lemma {:induction false} SameMapIsFound(x: seq<Member>, y: seq<Member>, caseSensitive: bool)
    requires forall i :: 0 <= i < |x| ==> Consistent(x[i].value, caseSensitive)
    requires forall i :: 0 <= i < |y| ==> Consistent(y[i].value, caseSensitive)
    requires OneMeaning(x, caseSensitive) && MapOf(x, caseSensitive) == MapOf(y, caseSensitive)
    ensures forall i :: 0 <= i < |x| ==> MemberFound(x[i], y, caseSensitive)
    decreases MembersSize(x) + MembersSize(y), 2
  {
    hide Fold;
    hide MapOf;
    hide Consistent;
    hide MeaningOf;
    hide Compare;
    forall i | 0 <= i < |x|
      ensures MemberFound(x[i], y, caseSensitive)
    {
      MemberIsEntry(x, i, caseSensitive);
      MapIsLookup(y, x[i].key, caseSensitive);
      var j := Find(y, x[i].key, caseSensitive).value;
      SameMeaningIsEqual(x[i].value, y[j].value, caseSensitive);
    }
  }

  /** On consistent trees the comparison is equality of meaning. */
  lemma CompareIsSameMeaning(a: Json, b: Json, caseSensitive: bool)
    requires Consistent(a, caseSensitive) && Consistent(b, caseSensitive)
    ensures Compare(a, b, caseSensitive) <==> MeaningOf(a, caseSensitive) == MeaningOf(b, caseSensitive)
  {
    hide Compare;
    hide Consistent;
    if Compare(a, b, caseSensitive) {
      EqualMeansSame(a, b, caseSensitive);
    }
    if MeaningOf(a, caseSensitive) == MeaningOf(b, caseSensitive) {
      SameMeaningIsEqual(a, b, caseSensitive);
    }
  }

  // ------------------------------------------------------------------
  // Trees that are the same up to the order of members
  // ------------------------------------------------------------------

  /** Reordering members changes neither consistency nor, then, the meaning. */
  lemma {:induction false} ReorderingKeepsMeaning(a: Json, b: Json, caseSensitive: bool)
    requires Canon(a, caseSensitive) == Canon(b, caseSensitive) && Consistent(a, caseSensitive)
    ensures Consistent(b, caseSensitive) && MeaningOf(a, caseSensitive) == MeaningOf(b, caseSensitive)
    decreases Size(a) + Size(b), 1
  {
    match (a, b)
    case (Array(x), Array(y)) =>
      var s, t := Canon(a, caseSensitive).items, Canon(b, caseSensitive).items;
      forall i | 0 <= i < |x|
        ensures Consistent(y[i], caseSensitive) && MeaningOf(x[i], caseSensitive) == MeaningOf(y[i], caseSensitive)
      {
        assert s[i] == t[i];
        ReorderingKeepsMeaning(x[i], y[i], caseSensitive);
      }
    case (Object(x), Object(y)) =>
      hide OneMeaning;
      hide EntriesOf;
      hide MapOf;
      ReorderedMembers(x, y, caseSensitive);
      SameMaps(y, x, caseSensitive);
    case _ =>
  }

  /** An entry of one object is one of the other's. */
  lemma EntryInOther(x: seq<Member>, y: seq<Member>, i: nat, caseSensitive: bool) returns (j: nat)
    requires multiset(EntriesOf(x, caseSensitive)) == multiset(EntriesOf(y, caseSensitive)) && i < |x|
    ensures j < |y| && Fold(x[i].key, caseSensitive) == Fold(y[j].key, caseSensitive)
    ensures Canon(x[i].value, caseSensitive) == Canon(y[j].value, caseSensitive)
  {
    hide Fold;
    hide Canon;
    var s, t := EntriesOf(x, caseSensitive), EntriesOf(y, caseSensitive);
    assert s[i] in multiset(s);
    j :| 0 <= j < |t| && t[j] == s[i];
  }

  lemma {:induction false} ReorderedMembers(x: seq<Member>, y: seq<Member>, caseSensitive: bool)
    requires multiset(EntriesOf(x, caseSensitive)) == multiset(EntriesOf(y, caseSensitive))
    requires forall i :: 0 <= i < |x| ==> Consistent(x[i].value, caseSensitive)
    requires OneMeaning(x, caseSensitive)
    ensures forall i :: 0 <= i < |y| ==> Consistent(y[i].value, caseSensitive)
    ensures MeansThat(x, y, caseSensitive) && MeansThat(y, x, caseSensitive)
    decreases MembersSize(x) + MembersSize(y), 2
  {
    hide Fold;
    hide Canon;
    hide EntriesOf;
    hide MapOf;
    hide MeaningOf;
    hide Consistent;
    hide OneMeaning;
    forall j | 0 <= j < |y|
      ensures Consistent(y[j].value, caseSensitive)
      ensures Fold(y[j].key, caseSensitive) in MapOf(x, caseSensitive)
      ensures MapOf(x, caseSensitive)[Fold(y[j].key, caseSensitive)] == MeaningOf(y[j].value, caseSensitive)
    {
      var i := EntryInOther(y, x, j, caseSensitive);
      ReorderingKeepsMeaning(x[i].value, y[j].value, caseSensitive);
      MemberIsEntry(x, i, caseSensitive);
    }
    MapWithin(y, x, caseSensitive);
    forall i | 0 <= i < |x|
      ensures Fold(x[i].key, caseSensitive) in MapOf(y, caseSensitive)
      ensures MapOf(y, caseSensitive)[Fold(x[i].key, caseSensitive)] == MeaningOf(x[i].value, caseSensitive)
    {
      var j := EntryInOther(x, y, i, caseSensitive);
      ReorderingKeepsMeaning(x[i].value, y[j].value, caseSensitive);
      MemberIsEntry(y, j, caseSensitive);
    }
  }

  /** A tree that compares equal to a reordering of itself is consistent. */
  lemma {:induction false} EqualToReorderingIsConsistent(a: Json, b: Json, caseSensitive: bool)
    requires Canon(a, caseSensitive) == Canon(b, caseSensitive) && Compare(a, b, caseSensitive)
    ensures Consistent(b, caseSensitive)
    decreases Size(a) + Size(b), 1
  {
    match (a, b)
    case (Array(x), Array(y)) =>
      var s, t := Canon(a, caseSensitive).items, Canon(b, caseSensitive).items;
      forall i | 0 <= i < |y|
        ensures Consistent(y[i], caseSensitive)
      {
        assert s[i] == t[i];
        EqualToReorderingIsConsistent(x[i], y[i], caseSensitive);
      }
    case (Object(x), Object(y)) =>
      hide OneMeaning;
      hide EntriesOf;
      hide MemberFound;
      hide Compare;
      ReorderedFound(x, y, caseSensitive);
    case _ =>
  }

  /** Each key's first member in y faces a member of x with the same canonical form, and every other member of x as well. */
  lemma {:induction false} ReorderedFound(x: seq<Member>, y: seq<Member>, caseSensitive: bool)
    requires multiset(EntriesOf(x, caseSensitive)) == multiset(EntriesOf(y, caseSensitive))
    requires forall i :: 0 <= i < |x| ==> MemberFound(x[i], y, caseSensitive)
    ensures forall j :: 0 <= j < |y| ==> Consistent(y[j].value, caseSensitive)
    ensures OneMeaning(y, caseSensitive)
    decreases MembersSize(x) + MembersSize(y), 2
  {
    hide Fold;
    hide Canon;
    hide EntriesOf;
    hide MapOf;
    hide MeaningOf;
    hide Consistent;
    hide Compare;
    forall j | 0 <= j < |y|
      ensures Consistent(y[j].value, caseSensitive)
      ensures MeaningOf(y[j].value, caseSensitive)
           == MeaningOf(y[Find(y, y[j].key, caseSensitive).value].value, caseSensitive)
    {
      var first := Find(y, y[j].key, caseSensitive).value;
      var k := EntryInOther(y, x, first, caseSensitive);
      SameLookup(y, x[k].key, y[j].key, caseSensitive);
      assert MemberFound(x[k], y, caseSensitive);
      EqualToReorderingIsConsistent(x[k].value, y[first].value, caseSensitive);
      var i := EntryInOther(y, x, j, caseSensitive);
      SameLookup(y, x[i].key, y[j].key, caseSensitive);
      assert MemberFound(x[i], y, caseSensitive);
      EqualMeansSame(x[i].value, y[first].value, caseSensitive);
      ReorderingKeepsMeaning(x[i].value, y[j].value, caseSensitive);
    }
    forall i, j | 0 <= i < |y| && 0 <= j < |y| && Fold(y[i].key, caseSensitive) == Fold(y[j].key, caseSensitive)
      ensures MeaningOf(y[i].value, caseSensitive) == MeaningOf(y[j].value, caseSensitive)
    {
      SameLookup(y, y[i].key, y[j].key, caseSensitive);
    }
  }

  lemma SameLookup(members: seq<Member>, k: bytes, l: bytes, caseSensitive: bool)
    requires Fold(k, caseSensitive) == Fold(l, caseSensitive)
    ensures Find(members, k, caseSensitive) == Find(members, l, caseSensitive)
  {
    hide Fold;
  }

  /**
   Two trees that are the same up to the order of members compare equal exactly
   when they are consistent.
   */
  lemma ReorderingIsEqualIffConsistent(a: Json, b: Json, caseSensitive: bool)
    requires Canon(a, caseSensitive) == Canon(b, caseSensitive)
    ensures Compare(a, b, caseSensitive) <==> Consistent(a, caseSensitive)
  {
    hide Compare;
    hide Consistent;
    hide Canon;
    hide MeaningOf;
    if Compare(a, b, caseSensitive) {
      EqualToReorderingIsConsistent(a, b, caseSensitive);
      EqualMeansSame(a, b, caseSensitive);
    }
    if Consistent(a, caseSensitive) {
      ReorderingKeepsMeaning(a, b, caseSensitive);
      SameMeaningIsEqual(a, b, caseSensitive);
    }
  }

  /** A tree compares equal to itself exactly when no repeated key has two meanings. */
  lemma ReflexiveIffConsistent(v: Json, caseSensitive: bool)
    ensures Compare(v, v, caseSensitive) <==> Consistent(v, caseSensitive)
  {
    hide Compare;
    hide Consistent;
    hide Canon;
    ReorderingIsEqualIffConsistent(v, v, caseSensitive);
  }

  /** The comparison is symmetric on all trees: the two passes trade places. */
  lemma {:induction false} CompareIsSymmetric(a: Json, b: Json, caseSensitive: bool)
    requires Compare(a, b, caseSensitive)
    ensures Compare(b, a, caseSensitive)
    decreases a
  {
    hide MemberFound;
    match (a, b)
    case (Number(x), Number(y)) => IntegersCompareExactly(x, y);
    case (Array(x), Array(y)) =>
      forall i | 0 <= i < |x|
        ensures Compare(y[i], x[i], caseSensitive)
      {
        CompareIsSymmetric(x[i], y[i], caseSensitive);
      }
    case _ =>
  }

  /** And it is transitive on all trees: what is found is found again. */
  lemma {:induction false} CompareIsTransitive(a: Json, b: Json, c: Json, caseSensitive: bool)
    requires Compare(a, b, caseSensitive) && Compare(b, c, caseSensitive)
    ensures Compare(a, c, caseSensitive)
    decreases Size(a) + Size(b) + Size(c), 1
  {
    match (a, b, c)
    case (Number(x), Number(y), Number(z)) =>
      IntegersCompareExactly(x, y);
      IntegersCompareExactly(y, z);
    case (Array(x), Array(y), Array(z)) =>
      forall i | 0 <= i < |x|
        ensures Compare(x[i], z[i], caseSensitive)
      {
        CompareIsTransitive(x[i], y[i], z[i], caseSensitive);
      }
    case (Object(x), Object(y), Object(z)) =>
      hide MemberFound;
      FoundThrough(x, y, z, caseSensitive);
      FoundThrough(z, y, x, caseSensitive);
    case _ =>
  }

  /** One pass: what each member of x finds in y finds in z what the member itself finds there. */
  lemma {:induction false} FoundThrough(x: seq<Member>, y: seq<Member>, z: seq<Member>, caseSensitive: bool)
    requires forall i :: 0 <= i < |x| ==> MemberFound(x[i], y, caseSensitive)
    requires forall j :: 0 <= j < |y| ==> MemberFound(y[j], z, caseSensitive)
    ensures forall i :: 0 <= i < |x| ==> MemberFound(x[i], z, caseSensitive)
    decreases MembersSize(x) + MembersSize(y) + MembersSize(z), 2
  {
    hide Fold;
    hide Compare;
    forall i | 0 <= i < |x|
      ensures MemberFound(x[i], z, caseSensitive)
    {
      assert MemberFound(x[i], y, caseSensitive);
      var j := Find(y, x[i].key, caseSensitive).value;
      assert MemberFound(y[j], z, caseSensitive);
      SameLookup(z, x[i].key, y[j].key, caseSensitive);
      var k := Find(z, x[i].key, caseSensitive).value;
      CompareIsTransitive(x[i].value, y[j].value, z[k].value, caseSensitive);
    }
  }

  /** Trees that compare equal are consistent together or not at all. */
  lemma ConsistentTogether(a: Json, b: Json, caseSensitive: bool)
    requires Compare(a, b, caseSensitive)
    ensures Consistent(a, caseSensitive) <==> Consistent(b, caseSensitive)
  {
    hide Compare;
    hide Consistent;
    CompareIsSymmetric(a, b, caseSensitive);
    if Consistent(a, caseSensitive) {
      EqualMeansSame(b, a, caseSensitive);
    }
    if Consistent(b, caseSensitive) {
      EqualMeansSame(a, b, caseSensitive);
    }
  }
}
