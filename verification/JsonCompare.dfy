/**
 `cJSON_Compare`: pairwise on arrays, by key in both directions on objects.

 Symmetry and transitivity hold on all trees.  Any two trees compare equal exactly when each equals its own copy and
 they have the same meaning, where an object means a map and member order does not matter.
 */
module JsonCompare {
  import opened Bytes
  import opened Wrappers
  import opened JsonValue

  /** The case rule, and the double that `strtod` makes of a number's text. */
  datatype Rule = Rule(caseSensitive: bool, double: seq<byte> -> real)

  function ToLower(c: byte): byte {
    if 0x41 <= c <= 0x5A then c + 0x20 else c
  }

  function Lower(s: seq<byte>): (r: seq<byte>)
    ensures |r| == |s|
  {
    seq(|s|, i requires 0 <= i < |s| => ToLower(s[i]))
  }

  /** What two keys must share to be the same key. */
  function Fold(key: seq<byte>, caseSensitive: bool): seq<byte> {
    if caseSensitive then key else Lower(key)
  }

  /** Two bytes that are equal, or the two cases of an ASCII letter. */
  predicate SameLetter(a: byte, b: byte) {
    a == b || (a + 32 == b && 'A' as int <= a <= 'Z' as int) || (b + 32 == a && 'A' as int <= b <= 'Z' as int)
  }

  /** Keys are the same byte for byte, or letter for letter when case does not matter. */
  lemma SameKey(a: seq<byte>, b: seq<byte>, caseSensitive: bool)
    ensures Fold(a, caseSensitive) == Fold(b, caseSensitive) <==>
            if caseSensitive then a == b else |a| == |b| && forall i :: 0 <= i < |a| ==> SameLetter(a[i], b[i])
  {
    if !caseSensitive && |a| == |b| {
      assert forall i :: 0 <= i < |a| ==> (Lower(a)[i] == Lower(b)[i] <==> SameLetter(a[i], b[i]));
    }
  }

  /** `get_object_item`: the first member with the key. */
  function Find(members: seq<Member>, key: seq<byte>, caseSensitive: bool): (r: Option<nat>)
    ensures r.Some? ==> r.value < |members| && Fold(members[r.value].key, caseSensitive) == Fold(key, caseSensitive)
    ensures r.Some? ==> forall i :: 0 <= i < r.value ==> Fold(members[i].key, caseSensitive) != Fold(key, caseSensitive)
    ensures r.None? ==>
              forall i :: 0 <= i < |members| ==> Fold(members[i].key, caseSensitive) != Fold(key, caseSensitive)
  {
    if members == [] then None
    else if Fold(key, caseSensitive) == Fold(members[0].key, caseSensitive) then Some(0)
    else
      match Find(members[1..], key, caseSensitive)
      case None => None
      case Some(i) => Some(i + 1)
  }

  lemma FindSame(members: seq<Member>, a: seq<byte>, b: seq<byte>, caseSensitive: bool)
    requires Fold(a, caseSensitive) == Fold(b, caseSensitive)
    ensures Find(members, a, caseSensitive) == Find(members, b, caseSensitive)
  {
  }

  // ---------------------------------------------------------------- sizes, for termination

  function Size(v: Value): nat {
    match v
    case Array(items) => 1 + ItemsSize(items)
    case Object(members) => 1 + MembersSize(members)
    case _ => 0
  }

  function ItemsSize(items: seq<Value>): nat {
    if items == [] then 0 else 1 + Size(items[0]) + ItemsSize(items[1..])
  }

  function MembersSize(members: seq<Member>): nat {
    if members == [] then 0 else 1 + Size(members[0].value) + MembersSize(members[1..])
  }

  lemma {:induction false} ItemSmaller(items: seq<Value>, i: nat)
    requires i < |items|
    ensures Size(items[i]) < ItemsSize(items)
  {
    if i > 0 {
      ItemSmaller(items[1..], i - 1);
    }
  }

  lemma {:induction false} MemberSmaller(members: seq<Member>, i: nat)
    requires i < |members|
    ensures Size(members[i].value) < MembersSize(members)
  {
    if i > 0 {
      MemberSmaller(members[1..], i - 1);
    }
  }

  // ---------------------------------------------------------------- the comparison

  predicate Same(a: Value, b: Value, rule: Rule)
    decreases Size(a) + Size(b), 1
  {
    match a
    case Null => b.Null?
    case False => b.False?
    case True => b.True?
    case Number(lexeme) => b.Number? && rule.double(lexeme) == rule.double(b.lexeme)
    case NonFinite(kind) => b.NonFinite? && kind == b.kind && kind != NaN
    case String(text) => b.String? && text == b.text
    case Array(items) => b.Array? && SameItems(items, b.items, rule)
    case Object(members) => b.Object? && Covered(members, b.members, rule) && Covered(b.members, members, rule)
  }

  predicate SameItems(x: seq<Value>, y: seq<Value>, rule: Rule)
    decreases ItemsSize(x) + ItemsSize(y), 2
  {
    |x| == |y| && forall i :: 0 <= i < |x| ==> (ItemSmaller(x, i); ItemSmaller(y, i); Same(x[i], y[i], rule))
  }

  /** Every member of `x` has an equal one in `y`. */
  predicate Covered(x: seq<Member>, y: seq<Member>, rule: Rule)
    decreases MembersSize(x) + MembersSize(y), 2
  {
    forall i :: 0 <= i < |x| ==> MemberCovered(x, i, y, rule)
  }

  predicate MemberCovered(x: seq<Member>, i: nat, y: seq<Member>, rule: Rule)
    requires i < |x|
    decreases MembersSize(x) + MembersSize(y), 1
  {
    match Find(y, x[i].key, rule.caseSensitive)
    case None => false
    case Some(j) =>
      MemberSmaller(x, i);
      MemberSmaller(y, j);
      Same(x[i].value, y[j].value, rule)
  }

  // ---------------------------------------------------------------- the C loops

  method GetObjectItem(members: seq<Member>, key: seq<byte>, caseSensitive: bool) returns (found: Option<nat>)
    ensures found == Find(members, key, caseSensitive)
  {
    hide Find;
    hide Fold;
    var i := 0;
    while i < |members| && Fold(key, caseSensitive) != Fold(members[i].key, caseSensitive)
      invariant 0 <= i <= |members|
      invariant forall k :: 0 <= k < i ==> Fold(members[k].key, caseSensitive) != Fold(key, caseSensitive)
    {
      i := i + 1;
    }
    if i == |members| {
      return None;
    }
    found := Some(i);
  }

  method Compare(a: Value, b: Value, rule: Rule) returns (same: bool)
    ensures same == Same(a, b, rule)
    decreases Size(a) + Size(b), 1
  {
    match a
    case Null => return b.Null?;
    case False => return b.False?;
    case True => return b.True?;
    case Number(lexeme) => return b.Number? && rule.double(lexeme) == rule.double(b.lexeme);
    case NonFinite(kind) => return b.NonFinite? && kind == b.kind && kind != NaN;
    case String(text) => return b.String? && text == b.text;
    case Array(items) =>
      if !b.Array? {
        return false;
      }
      same := CompareItems(items, b.items, rule);
    case Object(members) =>
      if !b.Object? {
        return false;
      }
      same := CompareMembers(members, b.members, rule);
      if same {
        same := CompareMembers(b.members, members, rule);
      }
  }

  method CompareItems(x: seq<Value>, y: seq<Value>, rule: Rule) returns (same: bool)
    ensures same == SameItems(x, y, rule)
    decreases ItemsSize(x) + ItemsSize(y), 2
  {
    var i := 0;
    while i < |x| && i < |y|
      invariant 0 <= i <= |x| && i <= |y|
      invariant forall k :: 0 <= k < i ==> Same(x[k], y[k], rule)
    {
      ItemSmaller(x, i);
      ItemSmaller(y, i);
      var equal := Compare(x[i], y[i], rule);
      if !equal {
        return false;
      }
      i := i + 1;
    }
    same := i == |x| && i == |y|;
  }

  method CompareMembers(x: seq<Member>, y: seq<Member>, rule: Rule) returns (covered: bool)
    ensures covered == Covered(x, y, rule)
    decreases MembersSize(x) + MembersSize(y), 2
  {
    hide Find;
    hide Same;
    hide Fold;
    hide Size;
    hide MembersSize;
    hide MemberCovered;
    var i := 0;
    while i < |x|
      invariant 0 <= i <= |x|
      invariant forall k :: 0 <= k < i ==> MemberCovered(x, k, y, rule)
    {
      MemberStep(x, i, y, rule);
      var found := GetObjectItem(y, x[i].key, rule.caseSensitive);
      if found.None? {
        return false;
      }
      var equal := Compare(x[i].value, y[found.value].value, rule);
      if !equal {
        return false;
      }
      i := i + 1;
    }
    covered := true;
  }

  lemma MemberStep(x: seq<Member>, i: nat, y: seq<Member>, rule: Rule)
    requires i < |x|
    ensures match Find(y, x[i].key, rule.caseSensitive)
            case None => !MemberCovered(x, i, y, rule)
            case Some(j) =>
              && Size(x[i].value) + Size(y[j].value) < MembersSize(x) + MembersSize(y)
              && MemberCovered(x, i, y, rule) == Same(x[i].value, y[j].value, rule)
  {
    hide Find;
    hide Same;
    hide Fold;
    hide Size;
    hide MembersSize;
    MemberSmaller(x, i);
    if Find(y, x[i].key, rule.caseSensitive).Some? {
      MemberSmaller(y, Find(y, x[i].key, rule.caseSensitive).value);
    }
  }

  // ---------------------------------------------------------------- laws on all trees

  lemma {:induction false} Symmetric(a: Value, b: Value, rule: Rule)
    ensures Same(a, b, rule) == Same(b, a, rule)
    decreases Size(a) + Size(b)
  {
    if a.Array? && b.Array? && |a.items| == |b.items| {
      forall i | 0 <= i < |a.items|
        ensures Same(a.items[i], b.items[i], rule) == Same(b.items[i], a.items[i], rule)
      {
        ItemSmaller(a.items, i);
        ItemSmaller(b.items, i);
        Symmetric(a.items[i], b.items[i], rule);
      }
    }
  }

  lemma {:induction false} Transitive(a: Value, b: Value, c: Value, rule: Rule)
    requires Same(a, b, rule) && Same(b, c, rule)
    ensures Same(a, c, rule)
    decreases Size(a) + Size(b) + Size(c), 1
  {
    if a.Array? {
      forall i | 0 <= i < |a.items|
        ensures Same(a.items[i], c.items[i], rule)
      {
        ItemSmaller(a.items, i);
        ItemSmaller(b.items, i);
        ItemSmaller(c.items, i);
        Transitive(a.items[i], b.items[i], c.items[i], rule);
      }
    } else if a.Object? {
      CoveredTransitive(a.members, b.members, c.members, rule);
      CoveredTransitive(c.members, b.members, a.members, rule);
    }
  }

  lemma {:induction false} CoveredTransitive(x: seq<Member>, y: seq<Member>, z: seq<Member>, rule: Rule)
    requires Covered(x, y, rule) && Covered(y, z, rule)
    ensures Covered(x, z, rule)
    decreases 3 + MembersSize(x) + MembersSize(y) + MembersSize(z), 0
  {
    forall i | 0 <= i < |x|
      ensures MemberCovered(x, i, z, rule)
    {
      assert MemberCovered(x, i, y, rule);
      var j := Find(y, x[i].key, rule.caseSensitive).value;
      assert MemberCovered(y, j, z, rule);
      FindSame(z, x[i].key, y[j].key, rule.caseSensitive);
      var k := Find(z, y[j].key, rule.caseSensitive).value;
      MemberSmaller(x, i);
      MemberSmaller(y, j);
      MemberSmaller(z, k);
      Transitive(x[i].value, y[j].value, z[k].value, rule);
    }
  }

  // ---------------------------------------------------------------- meaning

  /** What a tree stands for when member order is immaterial and the first of equal keys wins. */
  datatype Meaning =
    | Word(word: nat)
    | Real(value: real)
    | Special(kind: Irregular)
    | Text(text: seq<byte>)
    | List(items: seq<Meaning>)
    | Map(entries: map<seq<byte>, Meaning>)

  ghost function MeaningOf(v: Value, rule: Rule): Meaning
    decreases v, 1
  {
    match v
    case Null => Word(0)
    case False => Word(1)
    case True => Word(2)
    case Number(lexeme) => Real(rule.double(lexeme))
    case NonFinite(kind) => Special(kind)
    case String(text) => Meaning.Text(text)
    case Array(items) => List(seq(|items|, i requires 0 <= i < |items| => MeaningOf(items[i], rule)))
    case Object(members) => Map(Entries(members, rule))
  }

  ghost function Entries(members: seq<Member>, rule: Rule): map<seq<byte>, Meaning>
    decreases members, 0
  {
    if members == [] then map[]
    else Entries(members[1..], rule)[Fold(members[0].key, rule.caseSensitive) := MeaningOf(members[0].value, rule)]
  }

  /** Looking up a key in the map is finding the first member with it. */
  lemma {:induction false} EntryFound(members: seq<Member>, key: seq<byte>, rule: Rule)
    ensures var k, found := Fold(key, rule.caseSensitive), Find(members, key, rule.caseSensitive);
            && (k in Entries(members, rule) <==> found.Some?)
            && (found.Some? ==> Entries(members, rule)[k] == MeaningOf(members[found.value].value, rule))
  {
    if members != [] {
      EntryFound(members[1..], key, rule);
    }
  }

  lemma {:induction false} EntryHasMember(members: seq<Member>, k: seq<byte>, rule: Rule) returns (i: nat)
    requires k in Entries(members, rule)
    ensures i < |members| && Fold(members[i].key, rule.caseSensitive) == k
  {
    if Fold(members[0].key, rule.caseSensitive) == k {
      i := 0;
    } else {
      i := EntryHasMember(members[1..], k, rule);
      i := i + 1;
    }
  }

  predicate NanFree(v: Value) {
    match v
    case NonFinite(kind) => kind != NaN
    case Array(items) => forall i :: 0 <= i < |items| ==> NanFree(items[i])
    case Object(members) => forall i :: 0 <= i < |members| ==> NanFree(members[i].value)
    case _ => true
  }

  /** In every object the keys are pairwise distinct under the case rule. */
  predicate DistinctKeys(v: Value, rule: Rule) {
    match v
    case Array(items) => forall i :: 0 <= i < |items| ==> DistinctKeys(items[i], rule)
    case Object(members) =>
      && (forall i, j :: 0 <= i < j < |members| ==>
            Fold(members[i].key, rule.caseSensitive) != Fold(members[j].key, rule.caseSensitive))
      && forall i :: 0 <= i < |members| ==> DistinctKeys(members[i].value, rule)
    case _ => true
  }

  /**
   No NaN anywhere, and in every object each member compares equal to the first member with its key, which is
   itself when no other has it.
   */
  predicate Consistent(v: Value, rule: Rule)
    decreases v
  {
    match v
    case NonFinite(kind) => kind != NaN
    case Array(items) => forall i :: 0 <= i < |items| ==> Consistent(items[i], rule)
    case Object(members) =>
      && (forall i :: 0 <= i < |members| ==> Consistent(members[i].value, rule))
      && forall i :: 0 <= i < |members| ==> AgreesWithFirst(members, i, rule)
    case _ => true
  }

  predicate AgreesWithFirst(members: seq<Member>, i: nat, rule: Rule)
    requires i < |members|
  {
    var first := Find(members, members[i].key, rule.caseSensitive).value;
    first == i || Same(members[i].value, members[first].value, rule)
  }

  // ---------------------------------------------------------------- copies

  /** A tree compares equal to a copy of itself exactly when it is consistent. */
  lemma {:induction false} Reflexive(v: Value, rule: Rule)
    ensures Same(v, v, rule) <==> Consistent(v, rule)
    decreases v
  {
    match v
    case Array(items) =>
      forall i | 0 <= i < |items|
        ensures Same(items[i], items[i], rule) <==> Consistent(items[i], rule)
      {
        Reflexive(items[i], rule);
      }
    case Object(members) =>
      forall i | 0 <= i < |members|
        ensures MemberCovered(members, i, members, rule)
                <==> Consistent(members[i].value, rule) && AgreesWithFirst(members, i, rule)
      {
        Reflexive(members[i].value, rule);
        CoveredByFirst(members, i, rule);
      }
      CoveredEach(members, members, rule);
    case _ =>
  }

  lemma CoveredEach(x: seq<Member>, y: seq<Member>, rule: Rule)
    ensures Covered(x, y, rule) ==> forall i :: 0 <= i < |x| ==> MemberCovered(x, i, y, rule)
    ensures (forall i :: 0 <= i < |x| ==> MemberCovered(x, i, y, rule)) ==> Covered(x, y, rule)
  {
    if i: int :| 0 <= i < |x| && !MemberCovered(x, i, y, rule) {
      assert !Covered(x, y, rule);
    } else {
      assert Covered(x, y, rule);
    }
  }

  /** A member is covered in its own object when its value equals itself and the first under its key. */
  lemma CoveredByFirst(members: seq<Member>, i: nat, rule: Rule)
    requires i < |members|
    ensures MemberCovered(members, i, members, rule)
            <==> Same(members[i].value, members[i].value, rule) && AgreesWithFirst(members, i, rule)
  {
    hide Find;
    hide Same;
    hide Fold;
    var v, first := members[i].value, members[Find(members, members[i].key, rule.caseSensitive).value].value;
    MemberStep(members, i, members, rule);
    if Same(v, first, rule) {
      SameImpliesSelf(v, first, rule);
    }
  }

  /** What compares equal to anything compares equal to itself. */
  lemma SameImpliesSelf(a: Value, b: Value, rule: Rule)
    requires Same(a, b, rule)
    ensures Same(a, a, rule) && Same(b, b, rule)
  {
    hide Same;
    Symmetric(a, b, rule);
    Transitive(a, b, a, rule);
    Transitive(b, a, b, rule);
  }

  /** With pairwise distinct keys, consistency is the absence of NaN. */
  lemma {:induction false} DistinctConsistent(v: Value, rule: Rule)
    requires DistinctKeys(v, rule)
    ensures Consistent(v, rule) <==> NanFree(v)
    decreases v
  {
    hide Same;
    match v
    case Array(items) =>
      forall i | 0 <= i < |items|
        ensures Consistent(items[i], rule) <==> NanFree(items[i])
      {
        DistinctConsistent(items[i], rule);
      }
    case Object(members) =>
      forall i | 0 <= i < |members|
        ensures Consistent(members[i].value, rule) <==> NanFree(members[i].value)
        ensures AgreesWithFirst(members, i, rule)
      {
        DistinctConsistent(members[i].value, rule);
        assert Find(members, members[i].key, rule.caseSensitive) == Some(i);
      }
    case _ =>
  }

  /** A tree with distinct keys equals its copy exactly when it holds no NaN. */
  lemma DistinctReflexive(v: Value, rule: Rule)
    requires DistinctKeys(v, rule)
    ensures Same(v, v, rule) <==> NanFree(v)
  {
    Reflexive(v, rule);
    DistinctConsistent(v, rule);
  }

  /** Without NaN, two different values under one key are enough to make a tree differ from its copy. */
  lemma RepeatedKeyDiffers(key: seq<byte>, rule: Rule)
    ensures var v := Object([Member(key, True), Member(key, False)]);
            NanFree(v) && !Same(v, v, rule)
  {
    hide Fold;
    var members := [Member(key, True), Member(key, False)];
    assert Find(members, key, rule.caseSensitive) == Some(0);
    assert !AgreesWithFirst(members, 1, rule);
    Reflexive(Object(members), rule);
  }

  /** Two equal values under one key do not. */
  lemma RepeatedValueSame(key: seq<byte>, rule: Rule)
    ensures var v := Object([Member(key, True), Member(key, True)]);
            !DistinctKeys(v, rule) && Same(v, v, rule)
  {
    var members := [Member(key, True), Member(key, True)];
    assert Fold(members[0].key, rule.caseSensitive) == Fold(members[1].key, rule.caseSensitive);
    Reflexive(Object(members), rule);
  }

  // ---------------------------------------------------------------- comparing is meaning the same

  /** Consistent trees compare equal exactly when they mean the same. */
  lemma {:induction false} ConsistentSame(a: Value, b: Value, rule: Rule)
    requires Consistent(a, rule) && Consistent(b, rule)
    ensures Same(a, b, rule) <==> MeaningOf(a, rule) == MeaningOf(b, rule)
    decreases Size(a) + Size(b), 1
  {
    if a.Array? && b.Array? {
      ConsistentItems(a.items, b.items, rule);
    } else if a.Object? && b.Object? {
      if Same(a, b, rule) {
        CoveredMeaning(a.members, b.members, rule);
      }
      if MeaningOf(a, rule) == MeaningOf(b, rule) {
        MeaningCovers(a.members, b.members, rule);
        MeaningCovers(b.members, a.members, rule);
      }
    }
  }

  lemma {:induction false} ConsistentItems(x: seq<Value>, y: seq<Value>, rule: Rule)
    requires Consistent(Array(x), rule) && Consistent(Array(y), rule)
    ensures Same(Array(x), Array(y), rule) <==> MeaningOf(Array(x), rule) == MeaningOf(Array(y), rule)
    decreases 1 + ItemsSize(x) + ItemsSize(y), 0
  {
    var p, q := MeaningOf(Array(x), rule).items, MeaningOf(Array(y), rule).items;
    if |x| == |y| {
      forall i | 0 <= i < |x|
        ensures Same(x[i], y[i], rule) <==> p[i] == q[i]
      {
        ItemSmaller(x, i);
        ItemSmaller(y, i);
        ConsistentSame(x[i], y[i], rule);
      }
      assert p == q <==> forall i :: 0 <= i < |x| ==> p[i] == q[i];
    }
  }

  /** Objects that cover each other are the same map. */
  lemma {:induction false} CoveredMeaning(x: seq<Member>, y: seq<Member>, rule: Rule)
    requires Consistent(Object(x), rule) && Consistent(Object(y), rule)
    requires Covered(x, y, rule) && Covered(y, x, rule)
    ensures Entries(x, rule) == Entries(y, rule)
    decreases 1 + MembersSize(x) + MembersSize(y), 0
  {
    hide Same;
    hide MeaningOf;
    hide Entries;
    forall k | k in Entries(x, rule)
      ensures k in Entries(y, rule) && Entries(x, rule)[k] == Entries(y, rule)[k]
    {
      var i := EntryHasMember(x, k, rule);
      var key := x[i].key;
      EntryFound(x, key, rule);
      EntryFound(y, key, rule);
      var f := Find(x, key, rule.caseSensitive).value;
      FindSame(y, x[f].key, key, rule.caseSensitive);
      MemberStep(x, f, y, rule);
      CoveredEach(x, y, rule);
      ConsistentSame(x[f].value, y[Find(y, key, rule.caseSensitive).value].value, rule);
    }
    forall k | k in Entries(y, rule)
      ensures k in Entries(x, rule)
    {
      var j := EntryHasMember(y, k, rule);
      MemberStep(y, j, x, rule);
      CoveredEach(y, x, rule);
      EntryFound(x, y[j].key, rule);
    }
  }

  /** Objects that are the same map cover each other. */
  lemma {:induction false} MeaningCovers(x: seq<Member>, y: seq<Member>, rule: Rule)
    requires Consistent(Object(x), rule) && Consistent(Object(y), rule)
    requires Entries(x, rule) == Entries(y, rule)
    ensures Covered(x, y, rule)
    decreases 1 + MembersSize(x) + MembersSize(y), 0
  {
    hide Same;
    hide MeaningOf;
    hide Entries;
    hide MemberCovered;
    forall i | 0 <= i < |x|
      ensures MemberCovered(x, i, y, rule)
    {
      var key := x[i].key;
      EntryFound(x, key, rule);
      EntryFound(y, key, rule);
      var f, j := Find(x, key, rule.caseSensitive).value, Find(y, key, rule.caseSensitive).value;
      MemberStep(x, i, y, rule);
      MemberSmaller(x, f);
      MemberSmaller(y, j);
      ConsistentSame(x[f].value, y[j].value, rule);
      assert AgreesWithFirst(x, i, rule);
      if i != f {
        Transitive(x[i].value, x[f].value, y[j].value, rule);
      }
    }
  }

  /** On all trees: they compare equal exactly when both are consistent and they mean the same. */
  lemma SameExactly(a: Value, b: Value, rule: Rule)
    ensures Same(a, b, rule)
            <==> Consistent(a, rule) && Consistent(b, rule) && MeaningOf(a, rule) == MeaningOf(b, rule)
  {
    hide Same;
    hide Consistent;
    hide MeaningOf;
    if Same(a, b, rule) {
      SameImpliesSelf(a, b, rule);
    }
    Reflexive(a, rule);
    Reflexive(b, rule);
    if Consistent(a, rule) && Consistent(b, rule) {
      ConsistentSame(a, b, rule);
    }
  }

  ghost predicate MeansNoNan(m: Meaning) {
    match m
    case Special(kind) => kind != NaN
    case List(items) => forall i :: 0 <= i < |items| ==> MeansNoNan(items[i])
    case Map(entries) => forall k :: k in entries ==> MeansNoNan(entries[k])
    case _ => true
  }

  /** With distinct keys no member is hidden, so the meaning shows every NaN. */
  lemma {:induction false} NanShows(v: Value, rule: Rule)
    requires DistinctKeys(v, rule)
    ensures MeansNoNan(MeaningOf(v, rule)) <==> NanFree(v)
    decreases v
  {
    match v
    case Array(items) =>
      forall i | 0 <= i < |items|
        ensures MeansNoNan(MeaningOf(items[i], rule)) <==> NanFree(items[i])
      {
        NanShows(items[i], rule);
      }
      var p := MeaningOf(v, rule).items;
      assert forall i :: 0 <= i < |items| ==> p[i] == MeaningOf(items[i], rule);
    case Object(members) => NanShowsMembers(members, rule);
    case _ =>
  }

  lemma {:induction false} NanShowsMembers(members: seq<Member>, rule: Rule)
    requires DistinctKeys(Object(members), rule)
    ensures MeansNoNan(Map(Entries(members, rule))) <==> NanFree(Object(members))
    decreases members
  {
    hide MeaningOf;
    hide Entries;
    hide Fold;
    var entries := Entries(members, rule);
    forall i | 0 <= i < |members|
      ensures var k := Fold(members[i].key, rule.caseSensitive);
              k in entries && (MeansNoNan(entries[k]) <==> NanFree(members[i].value))
    {
      NanShows(members[i].value, rule);
      EntryFound(members, members[i].key, rule);
      assert Find(members, members[i].key, rule.caseSensitive) == Some(i);
    }
    forall k | k in entries && NanFree(Object(members))
      ensures MeansNoNan(entries[k])
    {
      var i := EntryHasMember(members, k, rule);
    }
  }

  /** With distinct keys, and no NaN in one of the trees, comparing equal is meaning the same. */
  lemma SameMeaning(a: Value, b: Value, rule: Rule)
    requires DistinctKeys(a, rule) && DistinctKeys(b, rule) && NanFree(a)
    ensures Same(a, b, rule) <==> MeaningOf(a, rule) == MeaningOf(b, rule)
  {
    hide Same;
    hide MeaningOf;
    hide Consistent;
    SameExactly(a, b, rule);
    DistinctConsistent(a, rule);
    DistinctConsistent(b, rule);
    NanShows(a, rule);
    NanShows(b, rule);
  }

  /** An object compares equal to the same members in any other order exactly when it equals its own copy. */
  lemma OrderImmaterial(x: seq<Member>, y: seq<Member>, rule: Rule)
    requires multiset(x) == multiset(y)
    ensures Same(Object(x), Object(y), rule) <==> Consistent(Object(x), rule)
  {
    hide Consistent;
    Reflexive(Object(x), rule);
    if Same(Object(x), Object(y), rule) {
      SameImpliesSelf(Object(x), Object(y), rule);
    } else if Consistent(Object(x), rule) {
      ReorderedCovers(x, y, rule);
      ReorderedCoversBack(x, y, rule);
    }
  }

  lemma Reordered<T>(x: seq<T>, y: seq<T>, i: nat) returns (j: nat)
    requires multiset(x) == multiset(y) && i < |x|
    ensures j < |y| && y[j] == x[i]
  {
    assert x[i] in multiset(y);
    assert x[i] in y;
    j :| 0 <= j < |y| && y[j] == x[i];
  }

  /** Two members of an object that covers itself are equal when they share a key. */
  lemma SharedKey(x: seq<Member>, i: nat, j: nat, rule: Rule)
    requires Covered(x, x, rule) && i < |x| && j < |x|
    requires Fold(x[i].key, rule.caseSensitive) == Fold(x[j].key, rule.caseSensitive)
    ensures Same(x[i].value, x[j].value, rule)
  {
    hide Find;
    hide Fold;
    hide Same;
    hide MemberCovered;
    MemberStep(x, i, x, rule);
    MemberStep(x, j, x, rule);
    FindSame(x, x[i].key, x[j].key, rule.caseSensitive);
    var first := x[Find(x, x[i].key, rule.caseSensitive).value].value;
    Symmetric(x[j].value, first, rule);
    Transitive(x[i].value, first, x[j].value, rule);
  }

  lemma ReorderedCovers(x: seq<Member>, y: seq<Member>, rule: Rule)
    requires multiset(x) == multiset(y) && Covered(x, x, rule)
    ensures Covered(x, y, rule)
  {
    hide Find;
    hide Fold;
    hide Same;
    hide MemberCovered;
    forall i | 0 <= i < |x|
      ensures MemberCovered(x, i, y, rule)
    {
      var j := Reordered(x, y, i);
      var k := Reordered(y, x, Find(y, x[i].key, rule.caseSensitive).value);
      SharedKey(x, i, k, rule);
      MemberStep(x, i, y, rule);
    }
  }

  lemma ReorderedCoversBack(x: seq<Member>, y: seq<Member>, rule: Rule)
    requires multiset(x) == multiset(y) && Covered(x, x, rule)
    ensures Covered(y, x, rule)
  {
    hide Find;
    hide Fold;
    hide Same;
    hide MemberCovered;
    forall j | 0 <= j < |y|
      ensures MemberCovered(y, j, x, rule)
    {
      var i := Reordered(y, x, j);
      SharedKey(x, i, Find(x, y[j].key, rule.caseSensitive).value, rule);
      MemberStep(y, j, x, rule);
    }
  }
}
