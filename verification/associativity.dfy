/** When the bracketing of three layers matters: for any two values the exact condition under
    which they associate below every third one (`_bmad/scripts/resolve_customization.py`). */
module Associativity {
  import opened ConfigMerge
  import opened Text

  /** The two bracketings of three layers come to the same. */
  predicate Associates(a: Value, b: Value, c: Value) {
    AndThen(DeepMerge(a, b), Ok(c)) == AndThen(Ok(a), DeepMerge(b, c))
  }

  predicate SameKind(a: Value, b: Value) {
    a.Scalar? == b.Scalar? && a.Array? == b.Array?
  }

  /** Twice the same code. */
  const TWIN: Value := Table(map["code" := Scalar("c")])

  /** A change of kind between two layers makes the bracketing matter for some third layer,
      unless it is a scalar or an empty table that is replaced. */
  lemma KindChangeBreaksIff(a: Value, b: Value)
    requires !SameKind(a, b)
    ensures (exists c :: !Associates(a, b, c)) <==> a.Array? || (a.Table? && a.fields != map[])
  {
    match a {
      case Scalar(_) =>
      case Table(fields) =>
        if fields == map[] {
          forall c ensures Associates(a, b, c) {
            EmptyTableIsReplaced(b, c);
          }
        } else {
          EmptyLayerIsNeutral(a);
          assert !Associates(a, b, Table(map[]));
        }
      case Array(items) =>
        MergeTwins(items);
        assert !Associates(a, b, if items == [] then Array([TWIN, TWIN]) else Array([]));
    }
  }

  lemma EmptyTableIsReplaced(b: Value, c: Value)
    requires !b.Table?
    ensures Associates(Table(map[]), b, c)
  {
    if c.Table? {
      EmptyLayerIsNeutral(c);
    }
  }

  lemma MergeTwins(items: seq<Value>)
    ensures MergeArrays([], [TWIN, TWIN]) != Ok([TWIN, TWIN])
    ensures items != [] ==> MergeArrays(items, []) != Ok([])
  {
    var twins := [TWIN, TWIN];
    assert [] + twins == twins;
    KeyedMergeDetected([], twins, "code");
    assert twins[..1] == [TWIN];
    PutAllOne([], TWIN, "code");
    LastIndexUnique([TWIN], "code", Scalar("c"), 0);
    if items != [] {
      NothingPut(items);
    }
  }

  lemma NothingPut(items: seq<Value>)
    requires items != []
    ensures MergeArrays(items, []) != Ok([])
  {
    hide TablesOf, Hashable, PutAll, LastIndex;
    assert items + [] == items;
    match DetectKeyedField(items) {
      case Some(key) =>
        TablesOfTables(items);
        PutNothing(items, key);
      case None =>
    }
  }

  lemma PutNothing(items: seq<Value>, key: string)
    ensures PutAll(items, [], key) == items
  {
  }

  /** Two arrays that are appended, of which the upper one is keyed by itself, make the
      bracketing matter: with the upper one once more on top, it is appended twice or once. So
      it is for a plain array under a keyed one, and for arrays keyed by different fields. */
  lemma MixedArraysBreakAssociativity(a: seq<Value>, b: seq<Value>)
    requires DetectKeyedField(a + b) == None && DetectKeyedField(b).Some?
    ensures !Associates(Array(a), Array(b), Array(b))
  {
    hide LastIndex, PutAll;
    AppendedStaysPlain(a, b);
    ArrayIdempotentIff(b);
    assert MergeArrays(a, b) == Ok(a + b) && MergeArrays(a + b, b) == Ok(a + b + b);
    assert |a + b + b| > |a + b|;
    if MergeArrays(b, b) != Ok(b) {
      DetectDoubled(b);
      assert MergeArrays(b, b) == TypeError;
    }
  }

  lemma AppendedStaysPlain(a: seq<Value>, b: seq<Value>)
    requires DetectKeyedField(a + b) == None && DetectKeyedField(b).Some?
    ensures DetectKeyedField(a + b + b) == None
  {
    forall key | AllHave(a + b + b, key) ensures AllHave(a + b, key) {
      assert forall i | 0 <= i < |a + b| :: (a + b)[i] == (a + b + b)[i];
    }
  }

  /** An identifier that no item has. */
  function Fresh(items: seq<Value>): (text: string)
    requires AllHave(items, "id")
    ensures forall i | 0 <= i < |items| :: items[i].fields["id"] != Scalar(text)
    ensures forall i | 0 <= i < |items| && items[i].fields["id"].Scalar? :: |items[i].fields["id"].text| < |text|
  {
    if items == [] then "x"
    else
      var rest, id := Fresh(items[1..]), items[0].fields["id"];
      assert forall i | 1 <= i < |items| :: items[i] == items[1..][i - 1];
      if id.Scalar? then rest + id.text + "x" else rest
  }

  /** Two arrays keyed by `id` associate under every array keyed by `id` if and only if some
      item without a `code` is left when they are merged. Else a later merge is by `code`. */
  lemma IdArraysAssociateIff(b: seq<Value>, c: seq<Value>)
    requires DetectKeyedField(b) == Some("id") && DetectKeyedField(c) == Some("id")
    requires Hashable(b, "id") && Hashable(c, "id")
    ensures (forall a | KeyedBy(a, "id") :: Associates(Array(a), Array(b), Array(c)))
       <==> !AllHave(PutAll(b, c, "id"), "code")
  {
    hide LastIndex, PutAll, MergeArrays;
    var bc := PutAll(b, c, "id");
    MergedById(b, c);
    if AllHave(bc, "code") {
      var a := Breaker(b, c);
      assert KeyedBy(a, "id") && !Associates(Array(a), Array(b), Array(c));
    } else {
      forall a | KeyedBy(a, "id") ensures Associates(Array(a), Array(b), Array(c)) {
        MergedById(a, b);
        MergedById(PutAll(a, b, "id"), c);
        MergedById(a, bc);
        PutAllAssociative(a, b, c, "id");
      }
    }
  }

  /** Below an array with an item that has no `code`, everything keyed by `id` is merged by `id`. */
  lemma MergedById(a: seq<Value>, b: seq<Value>)
    requires KeyedBy(a, "id") && KeyedBy(b, "id") && !AllHave(b, "code")
    ensures MergeArrays(a, b) == Ok(PutAll(a, b, "id")) && KeyedBy(PutAll(a, b, "id"), "id")
  {
    hide LastIndex, PutAll;
    var i :| 0 <= i < |b| && !HasField(b[i], "code");
    assert (a + b)[|a| + i] == b[i];
    assert AllHave(a + b, "id");
    KeyedMergeDetected(a, b, "id");
  }

  /** A layer under which the collapsing arrays do not associate: one item with a new `id` and
      the first `code` of their merge, which is replaced by one bracketing and kept by the other. */
  lemma Breaker(b: seq<Value>, c: seq<Value>) returns (a: seq<Value>)
    requires KeyedBy(b, "id") && KeyedBy(c, "id") && !AllHave(b, "code") && !AllHave(c, "code")
    requires AllHave(PutAll(b, c, "id"), "code")
    ensures KeyedBy(a, "id") && !Associates(Array(a), Array(b), Array(c))
  {
    hide LastIndex, PutAll, MergeArrays, Fresh;
    var bc := PutAll(b, c, "id");
    MergedById(b, c);
    NotEmptied(b, c);
    var id := Scalar(Fresh(b + c));
    var x := Table(map["id" := id, "code" := bc[0].fields["code"]]);
    a := [x];
    MergedById(a, b);
    MergedById(PutAll(a, b, "id"), c);
    KeptById(x, b, c);
    ItemsComeFrom(b, c, "id");
    forall i | 0 <= i < |bc| ensures bc[i] != x {
      assert bc[i] in b + c;
    }
    ReplacedByCode(x, bc);
  }

  lemma {:induction false} ItemsComeFrom(items: seq<Value>, over: seq<Value>, key: string)
    ensures forall v | v in PutAll(items, over, key) :: v in items + over
  {
    hide LastIndex;
    if over != [] {
      ItemsComeFrom(items, over[..|over| - 1], key);
    }
  }

  lemma NotEmptied(b: seq<Value>, c: seq<Value>)
    requires AllHave(b, "id") && AllHave(c, "id") && c != []
    ensures PutAll(b, c, "id") != []
  {
    hide LastIndex;
  }

  lemma KeptById(x: Value, b: seq<Value>, c: seq<Value>)
    requires HasField(x, "id") && AllHave(b, "id") && AllHave(c, "id")
    requires forall i | 0 <= i < |b + c| :: (b + c)[i].fields["id"] != x.fields["id"]
    ensures x in PutAll(PutAll([x], b, "id"), c, "id")
  {
    hide LastIndex, PutAll;
    var k := x.fields["id"];
    PutAllAppend([x], b, c, "id");
    LastItemWins([x], b + c, "id", k);
    LastIndexUnique([x] + (b + c), "id", k, 0);
    var r := PutAll([x], b + c, "id");
    assert r[LastIndex(r, "id", k)] == x;
  }

  lemma ReplacedByCode(x: Value, bc: seq<Value>)
    requires bc != [] && AllHave(bc, "code") && HasField(x, "code") && x.fields["code"] == bc[0].fields["code"]
    requires x !in bc
    ensures MergeArrays([x], bc) == TypeError || (MergeArrays([x], bc).Ok? && x !in MergeArrays([x], bc).value)
  {
    hide LastIndex, PutAll;
    assert AllHave([x] + bc, "code");
    if Hashable([x], "code") && Hashable(bc, "code") {
      KeyedMergeDetected([x], bc, "code");
      var r := PutAll([x], bc, "code");
      MergedItems([x], bc, "code");
      forall i | 0 <= i < |r| ensures r[i] != x {
        var k := r[i].fields["code"];
        LastItemIsLater(x, bc, k);
      }
    } else {
      assert [x][0] == x;
    }
  }

  /** The last item for a code is never one whose code comes again. */
  lemma LastItemIsLater(x: Value, bc: seq<Value>, k: Value)
    requires bc != [] && AllHave(bc, "code") && HasField(x, "code") && x.fields["code"] == bc[0].fields["code"]
    requires x !in bc
    ensures LastItem([x] + bc, "code", k) != Some(x)
  {
    var all := [x] + bc;
    assert all[1] == bc[0];
    var n := LastIndex(all, "code", k);
    assert 0 < n < |all| ==> all[n] == bc[n - 1] && bc[n - 1] in bc;
  }

  function IdItem(id: string): Value {
    Table(map["id" := Scalar(id)])
  }

  function CodedItem(id: string): Value {
    Table(map["id" := Scalar(id), "code" := Scalar("c")])
  }

  /** Such arrays exist: each item without a `code` is replaced by a later one that has it. */
  lemma CollapsingIdsBreakAssociativity()
    ensures var b, c := [IdItem("1")], [CodedItem("1"), IdItem("3"), CodedItem("3")];
            && DetectKeyedField(b) == Some("id") && DetectKeyedField(c) == Some("id")
            && Hashable(b, "id") && Hashable(c, "id")
            && AllHave(PutAll(b, c, "id"), "code")
            && exists a :: KeyedBy(a, "id") && !Associates(Array(a), Array(b), Array(c))
  {
    var b, c := [IdItem("1")], [CodedItem("1"), IdItem("3"), CodedItem("3")];
    assert b[0] == IdItem("1") && c[1] == IdItem("3");
    MergeCollapsesIds();
    IdArraysAssociateIff(b, c);
  }

  lemma MergeCollapsesIds()
    ensures PutAll([IdItem("1")], [CodedItem("1"), IdItem("3"), CodedItem("3")], "id")
         == [CodedItem("1"), CodedItem("3")]
  {
    var b, c := [IdItem("1")], [CodedItem("1"), IdItem("3"), CodedItem("3")];
    PutThree(b, CodedItem("1"), IdItem("3"), CodedItem("3"), "id");
    LastIndexUnique(b, "id", Scalar("1"), 0);
    assert b[0 := CodedItem("1")] == [CodedItem("1")];
    assert "1"[0] != "3"[0];
    assert PutItem([CodedItem("1")], IdItem("3"), "id") == [CodedItem("1"), IdItem("3")];
    LastIndexUnique([CodedItem("1"), IdItem("3")], "id", Scalar("3"), 1);
    assert [CodedItem("1"), IdItem("3")][1 := CodedItem("3")] == [CodedItem("1"), CodedItem("3")];
  }

  lemma PutThree(a: seq<Value>, x: Value, y: Value, z: Value, key: string)
    ensures PutAll(a, [x, y, z], key) == PutItem(PutItem(PutItem(a, x, key), y, key), z, key)
  {
    hide PutItem, PutAll;
    PutAllAppend(a, [x], [y, z], key);
    assert [x] + [y, z] == [x, y, z];
    PutAllAppend(PutAll(a, [x], key), [y], [z], key);
    assert [y] + [z] == [y, z];
    PutAllOne(a, x, key);
    PutAllOne(PutItem(a, x, key), y, key);
    PutAllOne(PutItem(PutItem(a, x, key), y, key), z, key);
  }

  // ---- arrays: what merging comes to ----

  lemma AllHaveConcat(a: seq<Value>, b: seq<Value>, key: string)
    ensures AllHave(a + b, key) <==> AllHave(a, key) && AllHave(b, key)
  {
    if AllHave(a + b, key) {
      assert forall i | 0 <= i < |a| :: a[i] == (a + b)[i];
      assert forall i | 0 <= i < |b| :: b[i] == (a + b)[|a| + i];
    }
  }

  lemma HashableConcat(a: seq<Value>, b: seq<Value>, key: string)
    ensures Hashable(a + b, key) <==> Hashable(a, key) && Hashable(b, key)
  {
    if Hashable(a + b, key) {
      assert forall i | 0 <= i < |a| :: a[i] == (a + b)[i];
      assert forall i | 0 <= i < |b| :: b[i] == (a + b)[|a| + i];
    }
  }

  /** The field that two arrays together are keyed by. */
  lemma DetectConcat(a: seq<Value>, b: seq<Value>)
    ensures DetectKeyedField(a + b) ==
            if a == [] && b == [] then None
            else if AllHave(a, "code") && AllHave(b, "code") then Some("code")
            else if AllHave(a, "id") && AllHave(b, "id") then Some("id")
            else None
  {
    hide AllHave;
    AllHaveConcat(a, b, "code");
    AllHaveConcat(a, b, "id");
  }

  lemma MergeCases(a: seq<Value>, b: seq<Value>)
    ensures DetectKeyedField(a + b) == None ==> MergeArrays(a, b) == Ok(a + b)
    ensures forall key | DetectKeyedField(a + b) == Some(key) ::
              && AllHave(a, key) && AllHave(b, key)
              && MergeArrays(a, b) ==
                 (if Hashable(a, key) && Hashable(b, key) then Ok(PutAll(a, b, key)) else TypeError)
  {
    hide Hashable, PutAll, LastIndex;
    DetectConcat(a, b);
    if DetectKeyedField(a + b).Some? {
      TablesOfTables(a);
    }
  }

  /** The array merged left to right, and the other way round. */
  function LeftFirst(a: seq<Value>, b: seq<Value>, c: seq<Value>): Outcome<seq<Value>> {
    match MergeArrays(a, b)
    case Ok(ab) => MergeArrays(ab, c)
    case TypeError => TypeError
  }

  function RightFirst(a: seq<Value>, b: seq<Value>, c: seq<Value>): Outcome<seq<Value>> {
    match MergeArrays(b, c)
    case Ok(bc) => MergeArrays(a, bc)
    case TypeError => TypeError
  }

  lemma ArraysAssociate(a: seq<Value>, b: seq<Value>, c: seq<Value>)
    ensures Associates(Array(a), Array(b), Array(c)) <==> LeftFirst(a, b, c) == RightFirst(a, b, c)
  {
    hide MergeArrays;
  }

  // ---- arrays that are put one behind the other ----

  /** The identifiers of `b` are distinct, and none of them is in `a`. */
  predicate Apart(a: seq<Value>, b: seq<Value>, key: string)
    requires AllHave(a, key) && AllHave(b, key)
  {
    && (forall i, j | 0 <= i < j < |b| :: b[i].fields[key] != b[j].fields[key])
    && (forall i, j | 0 <= i < |a| && 0 <= j < |b| :: a[i].fields[key] != b[j].fields[key])
  }

  /** Merging puts `b` behind `a`: they are not keyed together, or keyed by identifiers that can
      be hashed and are apart. */
  predicate Appends(a: seq<Value>, b: seq<Value>) {
    match DetectKeyedField(a + b)
    case None => true
    case Some(key) =>
      && AllHave(a, key) && AllHave(b, key)
      && Hashable(a, key) && Hashable(b, key) && Apart(a, b, key)
  }

  lemma {:induction false} PutAllLength(a: seq<Value>, b: seq<Value>, key: string)
    ensures |a| <= |PutAll(a, b, key)| <= |a| + |b|
  {
    hide LastIndex;
    if b != [] {
      PutAllLength(a, b[..|b| - 1], key);
    }
  }

  lemma {:induction false} PutAllAppendsIff(a: seq<Value>, b: seq<Value>, key: string)
    requires AllHave(a, key) && AllHave(b, key)
    ensures PutAll(a, b, key) == a + b <==> Apart(a, b, key)
  {
    hide LastIndex, Apart;
    if b == [] {
      assert a + b == a;
      NothingIsApart(a, key);
    } else {
      var init, x := b[..|b| - 1], b[|b| - 1];
      var m := PutAll(a, init, key);
      assert a + b == a + init + [x];
      PutAllAppendsIff(a, init, key);
      PutAllLength(a, init, key);
      ApartSnoc(a, b, key);
      if m != a + init {
        assert (m + [x])[..|m|] == m && |a + init| == |a| + |init|;
        assert m + [x] == a + init + [x] ==> m == a + init by {
          assert (a + init + [x])[..|a + init|] == a + init;
        }
      }
    }
  }

  lemma NothingIsApart(a: seq<Value>, key: string)
    requires AllHave(a, key)
    ensures Apart(a, [], key)
  {
  }

  lemma ApartSnoc(a: seq<Value>, b: seq<Value>, key: string)
    requires AllHave(a, key) && AllHave(b, key) && b != []
    ensures var init, x := b[..|b| - 1], b[|b| - 1];
            AllHave(init, key) &&
            (Apart(a, b, key) <==>
              Apart(a, init, key) && LastIndex(a + init, key, x.fields[key]) == |a + init|)
  {
    var init, x := b[..|b| - 1], b[|b| - 1];
    var k, all := x.fields[key], a + init;
    var n := LastIndex(all, key, k);
    assert forall i | 0 <= i < |a| :: all[i] == a[i];
    assert forall i | 0 <= i < |init| :: all[|a| + i] == b[i];
    if n < |all| {
      assert n < |a| ==> a[n].fields[key] == k;
      assert n >= |a| ==> b[n - |a|].fields[key] == k;
    }
  }

  lemma AppendsIff(a: seq<Value>, b: seq<Value>)
    ensures MergeArrays(a, b) == Ok(a + b) <==> Appends(a, b)
  {
    hide MergeArrays, PutAll, Hashable, Apart, LastIndex;
    MergeCases(a, b);
    match DetectKeyedField(a + b) {
      case None =>
      case Some(key) =>
        PutAllAppendsIff(a, b, key);
    }
  }

  // ---- arrays that associate below every array ----

  /** What it takes, besides appending: not keyed together, the upper one must not be empty or
      keyed by itself; keyed by `code`, no later array may be keyed by `id` with the upper one
      alone, or not without failing both ways; keyed by `id`, neither may have a `code` throughout. */
  predicate ArraysAlways(a: seq<Value>, b: seq<Value>) {
    Appends(a, b) &&
    match DetectKeyedField(a + b)
    case None => b != [] && DetectKeyedField(b) == None
    case Some(key) =>
      if key == "code" then !AllHave(b, "id") || (AllHave(a, "id") && !Hashable(b, "id"))
      else !AllHave(a, "code") && !AllHave(b, "code")
  }

  lemma NoKey(b: seq<Value>)
    requires b != [] && DetectKeyedField(b) == None
    ensures !AllHave(b, "code") && !AllHave(b, "id")
  {
  }

  /** Appended arrays, with whatever is on top, when the upper two are not keyed together and
      neither are all three. */
  lemma PlainOnTop(a: seq<Value>, b: seq<Value>, c: seq<Value>)
    requires Appends(a, b) && DetectKeyedField(b + c) == None
    requires DetectKeyedField(a + b + c) == None
    ensures LeftFirst(a, b, c) == RightFirst(a, b, c)
  {
    hide MergeArrays, DetectKeyedField, Appends;
    AppendsIff(a, b);
    MergeCases(b, c);
    assert a + b + c == a + (b + c);
    MergeCases(a, b + c);
    MergeCases(a + b, c);
  }

  lemma UnkeyedAlways(a: seq<Value>, b: seq<Value>, c: seq<Value>)
    requires DetectKeyedField(a + b) == None && b != [] && DetectKeyedField(b) == None
    ensures LeftFirst(a, b, c) == RightFirst(a, b, c)
  {
    hide MergeArrays, AllHave, DetectKeyedField;
    NoKey(b);
    DetectConcat(b, c);
    DetectConcat(a + b, c);
    AllHaveConcat(a, b, "code");
    AllHaveConcat(a, b, "id");
    PlainOnTop(a, b, c);
  }

  /** Appended arrays keyed by one field, with an array on top that is keyed by it too. */
  lemma KeyedOnTop(a: seq<Value>, b: seq<Value>, c: seq<Value>, key: string)
    requires Appends(a, b) && DetectKeyedField(a + b) == Some(key)
    requires DetectKeyedField(b + c) == Some(key) && DetectKeyedField(a + b + c) == Some(key)
    requires AllHave(b, key) && AllHave(c, key) && Hashable(c, key)
    requires DetectKeyedField(a + PutAll(b, c, key)) == Some(key)
    ensures LeftFirst(a, b, c) == RightFirst(a, b, c)
  {
    hide MergeArrays, PutAll, LastIndex, AllHave, Hashable, Apart, DetectKeyedField;
    AppendsIff(a, b);
    MergeCases(a, b);
    MergeCases(b, c);
    MergeCases(a + b, c);
    HashableConcat(a, b, key);
    MergeCases(a, PutAll(b, c, key));
    MergedHashable(b, c, key);
    PutAllAssociative(a, b, c, key);
  }

  lemma MergedHashable(b: seq<Value>, c: seq<Value>, key: string)
    requires AllHave(b, key) && AllHave(c, key) && Hashable(b, key) && Hashable(c, key)
    ensures Hashable(PutAll(b, c, key), key) && AllHave(PutAll(b, c, key), key)
  {
    PutAllKeyed(b, c, key);
  }

  /** Identifiers on top that cannot be hashed fail both ways. */
  lemma UnhashableOnTop(a: seq<Value>, b: seq<Value>, c: seq<Value>, key: string)
    requires DetectKeyedField(b + c) == Some(key) && DetectKeyedField(a + b + c) == Some(key)
    requires Appends(a, b) && !(Hashable(b, key) && Hashable(c, key))
    ensures LeftFirst(a, b, c) == RightFirst(a, b, c)
  {
    hide MergeArrays, PutAll, AllHave, Hashable, Apart, DetectKeyedField, Appends;
    AppendsIff(a, b);
    MergeCases(b, c);
    MergeCases(a + b, c);
    HashableConcat(a, b, key);
  }

  lemma CodedAlways(a: seq<Value>, b: seq<Value>, c: seq<Value>)
    requires ArraysAlways(a, b) && DetectKeyedField(a + b) == Some("code")
    ensures LeftFirst(a, b, c) == RightFirst(a, b, c)
  {
    hide MergeArrays, AllHave, Hashable, DetectKeyedField, Appends, PutAll;
    DetectConcat(a, b);
    DetectConcat(b, c);
    DetectConcat(a + b, c);
    AllHaveConcat(a, b, "code");
    AllHaveConcat(a, b, "id");
    EmptyHasAll();
    if AllHave(c, "code") {
      if Hashable(b, "code") && Hashable(c, "code") {
        MergedHashable(b, c, "code");
        DetectConcat(a, PutAll(b, c, "code"));
        PutAllLength(b, c, "code");
        KeyedOnTop(a, b, c, "code");
      } else {
        UnhashableOnTop(a, b, c, "code");
      }
    } else if AllHave(b, "id") && AllHave(c, "id") {
      UnhashableOnTop(a, b, c, "id");
    } else {
      PlainOnTop(a, b, c);
    }
  }

  lemma EmptyHasAll()
    ensures AllHave([], "code") && AllHave([], "id") && Hashable([], "id") && Hashable([], "code")
  {
  }

  lemma NamedAlways(a: seq<Value>, b: seq<Value>, c: seq<Value>)
    requires ArraysAlways(a, b) && DetectKeyedField(a + b) == Some("id")
    ensures LeftFirst(a, b, c) == RightFirst(a, b, c)
  {
    hide MergeArrays, AllHave, Hashable, DetectKeyedField, Appends, PutAll;
    DetectConcat(a, b);
    DetectConcat(b, c);
    DetectConcat(a + b, c);
    AllHaveConcat(a, b, "code");
    AllHaveConcat(a, b, "id");
    EmptyHasAll();
    if AllHave(c, "id") {
      if Hashable(b, "id") && Hashable(c, "id") {
        MergedHashable(b, c, "id");
        DetectConcat(a, PutAll(b, c, "id"));
        KeyedOnTop(a, b, c, "id");
      } else {
        UnhashableOnTop(a, b, c, "id");
      }
    } else {
      PlainOnTop(a, b, c);
    }
  }

  lemma AlwaysSuffices(a: seq<Value>, b: seq<Value>, c: seq<Value>)
    requires ArraysAlways(a, b)
    ensures LeftFirst(a, b, c) == RightFirst(a, b, c)
  {
    hide MergeArrays, LeftFirst, RightFirst;
    match DetectKeyedField(a + b) {
      case None => UnkeyedAlways(a, b, c);
      case Some(key) =>
        if key == "code" {
          CodedAlways(a, b, c);
        } else {
          NamedAlways(a, b, c);
        }
    }
  }

  // ---- arrays on top that tell the bracketings apart ----

  /** An item with an identifier alone, and one with a code as well. */
  function Named(id: string): Value {
    Table(map["id" := Scalar(id)])
  }

  function Coded(id: string, code: Value): Value {
    Table(map["id" := Scalar(id), "code" := code])
  }

  /** Arrays that do not append: one scalar item on top. */
  lemma ScalarItemBreaks(a: seq<Value>, b: seq<Value>)
    requires !Appends(a, b)
    ensures LeftFirst(a, b, [Scalar("")]) != RightFirst(a, b, [Scalar("")])
  {
    hide MergeArrays, Appends, DetectKeyedField;
    var c := [Scalar("")];
    AppendsIff(a, b);
    ScalarItemAppends(b);
    ScalarItemAppends(b + c);
    assert MergeArrays(b, c) == Ok(b + c);
    MergeWithScalarItem(a, b);
    var m := MergeArrays(a, b);
    if m.Ok? {
      ScalarItemAppends(m.value);
      assert RightFirst(a, b, c) == Ok(a + (b + c));
      assert m.value + c == a + (b + c) ==> m.value == a + b by {
        assert (m.value + c)[..|m.value|] == m.value;
        assert (a + (b + c))[..|a + b|] == a + b;
      }
    }
  }

  lemma ScalarItemAppends(m: seq<Value>)
    ensures MergeArrays(m, [Scalar("")]) == Ok(m + [Scalar("")])
  {
    DetectConcat(m, [Scalar("")]);
    assert !HasField([Scalar("")][0], "code") && !HasField([Scalar("")][0], "id");
    MergeCases(m, [Scalar("")]);
  }

  lemma MergeWithScalarItem(a: seq<Value>, b: seq<Value>)
    ensures MergeArrays(a, b + [Scalar("")]) == Ok(a + (b + [Scalar("")]))
  {
    hide MergeArrays;
    var c := b + [Scalar("")];
    assert c[|b|] == Scalar("");
    assert !AllHave(c, "code") && !AllHave(c, "id");
    DetectConcat(a, c);
    MergeCases(a, c);
  }

  /** Items of one identifier add at most one. */
  lemma {:induction false} OneKeyAddsOne(a: seq<Value>, over: seq<Value>, key: string, k: Value)
    requires AllHave(over, key) && forall i | 0 <= i < |over| :: over[i].fields[key] == k
    ensures |PutAll(a, over, key)| <= |a| + 1
    ensures over != [] ==> LastIndex(PutAll(a, over, key), key, k) < |PutAll(a, over, key)|
  {
    hide LastIndex;
    if over != [] {
      var init := over[..|over| - 1];
      OneKeyAddsOne(a, init, key, k);
      PutKeepsKeys(PutAll(a, init, key), over[|over| - 1], key, k);
    }
  }

  /** A plain array under an empty one: two items with one code on top. */
  lemma TwinsBreak(a: seq<Value>)
    requires a != [] && DetectKeyedField(a) == None
    ensures LeftFirst(a, [], [TWIN, TWIN]) != RightFirst(a, [], [TWIN, TWIN])
  {
    hide MergeArrays, PutAll, LastIndex, AllHave, Hashable, DetectKeyedField;
    var c := [TWIN, TWIN];
    TwinsAreCoded();
    EmptyHasAll();
    NoKey(a);
    DetectConcat([], c);
    MergeCases([], c);
    OneKeyAddsOne([], c, "code", Scalar("c"));
    var r := PutAll([], c, "code");
    DetectConcat(a, []);
    DetectConcat(a, c);
    DetectConcat(a, r);
    MergeCases(a, []);
    MergeCases(a, c);
    MergeCases(a, r);
    assert a + [] == a;
    assert |a + r| <= |a| + 1 < |a + c|;
  }

  lemma TwinsAreCoded()
    ensures AllHave([TWIN, TWIN], "code") && Hashable([TWIN, TWIN], "code")
    ensures forall i | 0 <= i < 2 :: [TWIN, TWIN][i].fields["code"] == Scalar("c")
  {
  }

  /** Two empty arrays: an array that is merged by `id` first and by `code` then. */
  lemma EmptyArraysBreak()
    ensures exists c :: LeftFirst([], [], c) != RightFirst([], [], c)
  {
    hide PutAll, LastIndex, MergeArrays;
    var c := [IdItem("1")] + [CodedItem("1"), IdItem("3"), CodedItem("3")];
    var r := [CodedItem("1"), CodedItem("3")];
    PutAllAppend([], [IdItem("1")], [CodedItem("1"), IdItem("3"), CodedItem("3")], "id");
    PutAllOne([], IdItem("1"), "id");
    OneIsPut(IdItem("1"), "id");
    MergeCollapsesIds();
    assert PutAll([], c, "id") == r;
    assert !HasField(c[0], "code");
    assert AllHave(c, "id") && Hashable(c, "id") && AllHave(r, "code") && Hashable(r, "code");
    EmptyHasAll();
    DetectConcat([], c);
    MergeCases([], c);
    DetectConcat([], r);
    MergeCases([], r);
    OneKeyAddsOne([], r, "code", Scalar("c"));
    DetectConcat([], []);
    MergeCases([], []);
    assert LeftFirst([], [], c) == Ok(r);
    assert LeftFirst([], [], c) != RightFirst([], [], c);
  }

  lemma OneIsPut(x: Value, key: string)
    ensures PutItem([], x, key) == [x]
  {
  }

  /** The upper array alone could be keyed by `id`: two items with one `id` and no code. */
  lemma NamedTwinsBreak(a: seq<Value>, b: seq<Value>)
    requires Appends(a, b) && DetectKeyedField(a + b) == Some("code")
    requires AllHave(b, "id") && !AllHave(a, "id")
    ensures LeftFirst(a, b, [Named(""), Named("")]) != RightFirst(a, b, [Named(""), Named("")])
  {
    hide MergeArrays, PutAll, LastIndex, AllHave, Hashable, DetectKeyedField, Appends;
    var c := [Named(""), Named("")];
    NamedTwins();
    AppendsIff(a, b);
    DetectConcat(b, c);
    AllHaveConcat(a, b, "id");
    DetectConcat(a + b, c);
    MergeCases(a + b, c);
    MergeCases(b, c);
    if Hashable(b, "id") {
      var r := PutAll(b, c, "id");
      OneKeyAddsOne(b, c, "id", Scalar(""));
      LastIsThere(b, c, "id", Named(""));
      NotAllHave(r, Named(""), "code");
      DetectConcat(a, r);
      MergeCases(a, r);
      assert |a + r| <= |a| + |b| + 1 < |a + b + c|;
    }
  }

  lemma NamedTwins()
    ensures var c := [Named(""), Named("")];
            && AllHave(c, "id") && Hashable(c, "id") && !AllHave(c, "code")
            && forall i | 0 <= i < 2 :: c[i].fields["id"] == Scalar("")
  {
    assert !HasField([Named(""), Named("")][0], "code");
  }

  lemma NotAllHave(r: seq<Value>, x: Value, key: string)
    requires x in r && !HasField(x, key)
    ensures !AllHave(r, key)
  {
  }

  /** The last item of the override is in the merge. */
  lemma LastIsThere(b: seq<Value>, c: seq<Value>, key: string, x: Value)
    requires AllHave(b, key) && AllHave(c, key) && c != [] && c[|c| - 1] == x
    ensures x in PutAll(b, c, key)
  {
    hide LastIndex;
    var before := PutAll(b, c[..|c| - 1], key);
    var n := LastIndex(before, key, x.fields[key]);
    assert PutAll(b, c, key) == PutItem(before, x, key);
    assert PutAll(b, c, key)[if n == |before| then |before| else n] == x;
  }

  /** A new identifier, first bare and then with a code, is put behind as the latter. */
  lemma PairIsPut(base: seq<Value>, id: string, code: Value)
    requires LastIndex(base, "id", Scalar(id)) == |base|
    ensures PutAll(base, [Named(id), Coded(id, code)], "id") == base + [Coded(id, code)]
  {
    hide LastIndex;
    var x, y := Named(id), Coded(id, code);
    PutAllAppend(base, [x], [y], "id");
    assert [x] + [y] == [x, y];
    PutAllOne(base, x, "id");
    PutAllOne(PutItem(base, x, "id"), y, "id");
    PutTwice(base, x, y, "id");
  }

  lemma FreshIsNew(items: seq<Value>, text: string)
    requires AllHave(items, "id") && forall i | 0 <= i < |items| :: items[i].fields["id"] != Scalar(text)
    ensures LastIndex(items, "id", Scalar(text)) == |items|
  {
  }

  /** Both arrays have identifiers and codes: a new identifier with an old code. */
  lemma OldCodeBreaks(a: seq<Value>, b: seq<Value>)
    requires Appends(a, b) && DetectKeyedField(a + b) == Some("code")
    requires AllHave(a, "id") && AllHave(b, "id") && Hashable(b, "id")
    ensures exists c :: LeftFirst(a, b, c) != RightFirst(a, b, c)
  {
    hide MergeArrays, PutAll, LastIndex, DetectKeyedField, Fresh, PutItem, Apart;
    AllHaveConcat(a, b, "id");
    AllHaveConcat(a, b, "code");
    HashableConcat(a, b, "id");
    HashableConcat(a, b, "code");
    DetectConcat(a, b);
    var ab, k := a + b, (a + b)[0].fields["code"];
    var id := Fresh(ab);
    var x, y := Named(id), Coded(id, k);
    var c := [x, y];
    assert c[0] == x && !HasField(x, "code");
    assert AllHave(c, "id") && Hashable(c, "id") && !AllHave(c, "code");
    assert forall i | 0 <= i < |b| :: b[i] == ab[|a| + i];
    FreshIsNew(ab, id);
    FreshIsNew(b, id);
    PairIsPut(ab, id, k);
    PairIsPut(b, id, k);
    AppendsIff(a, b);
    MergeCases(a, b);
    DetectConcat(b, c);
    MergeCases(b, c);
    DetectConcat(ab, c);
    MergeCases(ab, c);
    CodeIsReplaced(a, b, y);
    assert LeftFirst(a, b, c) != RightFirst(a, b, c);
  }

  lemma CodeIsReplaced(a: seq<Value>, b: seq<Value>, y: Value)
    requires a + b != [] && AllHave(a, "code") && AllHave(b, "code") && Hashable(a, "code") && Hashable(b, "code")
    requires PutAll(a, b, "code") == a + b
    requires HasField(y, "code") && y.fields["code"] == (a + b)[0].fields["code"]
    ensures MergeArrays(a, b + [y]).Ok? && |MergeArrays(a, b + [y]).value| == |a + b|
  {
    hide MergeArrays, PutAll, LastIndex, DetectKeyedField;
    var top := b + [y];
    assert (a + b)[0] == if a == [] then b[0] else a[0];
    AllHaveConcat(b, [y], "code");
    HashableConcat(b, [y], "code");
    DetectConcat(a, top);
    MergeCases(a, top);
    PutAllAppend(a, b, [y], "code");
    PutAllOne(a + b, y, "code");
    FirstOccurs(a + b, y.fields["code"]);
  }

  lemma FirstOccurs(items: seq<Value>, k: Value)
    requires items != [] && HasField(items[0], "code") && items[0].fields["code"] == k
    ensures LastIndex(items, "code", k) < |items|
  {
  }

  /** Keyed by `id`, but the upper array has codes: two new items with one code. */
  lemma NewTwinsBreak(a: seq<Value>, b: seq<Value>)
    requires Appends(a, b) && DetectKeyedField(a + b) == Some("id") && AllHave(b, "code")
    ensures exists c :: LeftFirst(a, b, c) != RightFirst(a, b, c)
  {
    hide MergeArrays, PutAll, LastIndex, DetectKeyedField, Fresh, PutItem, Apart;
    DetectConcat(a, b);
    AllHaveConcat(a, b, "id");
    AllHaveConcat(a, b, "code");
    HashableConcat(a, b, "id");
    var ab := a + b;
    var id := Fresh(ab);
    var p, q := Coded(id, Scalar("c")), Coded(id + "x", Scalar("c"));
    var c := [p, q];
    assert AllHave(c, "id") && Hashable(c, "id") && AllHave(c, "code") && Hashable(c, "code");
    NewPairIsApart(ab, id, c);
    PutAllAppendsIff(ab, c, "id");
    AppendsIff(a, b);
    DetectConcat(b, c);
    MergeCases(b, c);
    DetectConcat(ab, c);
    MergeCases(ab, c);
    OneKeyAddsOne(b, c, "code", Scalar("c"));
    var r := PutAll(b, c, "code");
    KeyOfItems(b, c, "code", "id");
    DetectConcat(a, r);
    MergeCases(a, r);
    PutAllLength(a, r, "id");
    assert |ab + c| == |a| + |b| + 2;
    assert LeftFirst(a, b, c) != RightFirst(a, b, c);
  }

  lemma NewPairIsApart(ab: seq<Value>, id: string, c: seq<Value>)
    requires AllHave(ab, "id") && id == Fresh(ab) && c == [Coded(id, Scalar("c")), Coded(id + "x", Scalar("c"))]
    ensures Apart(ab, c, "id")
  {
    assert |id + "x"| > |id|;
    forall i | 0 <= i < |ab| ensures ab[i].fields["id"] != Scalar(id + "x") && ab[i].fields["id"] != Scalar(id) {
    }
  }

  /** Merging by one field leaves every other that all items have. */
  lemma KeyOfItems(b: seq<Value>, c: seq<Value>, key: string, other: string)
    requires AllHave(b, other) && AllHave(c, other)
    ensures AllHave(PutAll(b, c, key), other)
  {
    ItemsComeFrom(b, c, key);
    var r := PutAll(b, c, key);
    forall i | 0 <= i < |r| ensures HasField(r[i], other) {
      assert r[i] in b + c;
    }
  }

  /** The items of an array with all their codes made one. */
  function Recoded(b: seq<Value>): (r: seq<Value>)
    requires AllHave(b, "id")
    ensures |r| == |b|
    ensures forall i | 0 <= i < |r| :: r[i] == Table(map["id" := b[i].fields["id"], "code" := Scalar("c")])
  {
    seq(|b|, i requires 0 <= i < |b| => Table(map["id" := b[i].fields["id"], "code" := Scalar("c")]))
  }

  /** Keyed by `id`, the lower array with codes and the upper one not throughout: the upper one
      recoded, with one new item. */
  lemma RecodedBreaks(a: seq<Value>, b: seq<Value>)
    requires Appends(a, b) && DetectKeyedField(a + b) == Some("id")
    requires AllHave(a, "code") && !AllHave(b, "code")
    ensures exists c :: LeftFirst(a, b, c) != RightFirst(a, b, c)
  {
    hide MergeArrays, PutAll, LastIndex, DetectKeyedField, Fresh, PutItem, Apart, Recoded;
    DetectConcat(a, b);
    AllHaveConcat(a, b, "id");
    HashableConcat(a, b, "id");
    AllHaveConcat(a, b, "code");
    var ab := a + b;
    var id := Fresh(ab);
    var c := Recoded(b) + [Coded(id, Scalar("c"))];
    RecodedShape(b, id);
    AppendsIff(a, b);
    DetectConcat(b, c);
    MergeCases(b, c);
    DetectConcat(ab, c);
    MergeCases(ab, c);
    NewItemIsAdded(a, b);
    AllRecoded(a, b, id);
    var r := PutAll(b, c, "id");
    DetectConcat(a, r);
    MergeCases(a, r);
    OneKeyAddsOne(a, r, "code", Scalar("c"));
    PutAllLength(b, c, "id");
    assert b != [] by { EmptyHasAll(); }
    assert LeftFirst(a, b, c) != RightFirst(a, b, c);
  }

  lemma RecodedShape(b: seq<Value>, id: string)
    requires AllHave(b, "id") && Hashable(b, "id")
    ensures var c := Recoded(b) + [Coded(id, Scalar("c"))];
            && AllHave(c, "id") && Hashable(c, "id") && AllHave(c, "code") && Hashable(c, "code")
            && forall i | 0 <= i < |c| :: c[i].fields["code"] == Scalar("c")
  {
  }

  /** The new item comes on top of both arrays. */
  lemma NewItemIsAdded(a: seq<Value>, b: seq<Value>)
    requires AllHave(a + b, "id") && AllHave(b, "id")
    ensures |PutAll(a + b, Recoded(b) + [Coded(Fresh(a + b), Scalar("c"))], "id")| > |a + b|
  {
    hide PutAll, LastIndex, Fresh, Recoded;
    var ab, again := a + b, Recoded(b);
    var id := Fresh(ab);
    var y, k := Coded(id, Scalar("c")), Scalar(id);
    PutAllAppend(ab, again, [y], "id");
    var m := PutAll(ab, again, "id");
    PutAllOne(m, y, "id");
    PutAllLength(ab, again, "id");
    AllHaveRecoded(b);
    LastItemWins(ab, again, "id", k);
    var both := ab + again;
    forall i | 0 <= i < |both| ensures both[i].fields["id"] != k {
      if i >= |ab| {
        assert both[i] == again[i - |ab|] && ab[|a| + (i - |ab|)] == b[i - |ab|];
      } else {
        assert both[i] == ab[i];
      }
    }
    FreshIsNew(both, id);
  }

  lemma AllHaveRecoded(b: seq<Value>)
    requires AllHave(b, "id")
    ensures AllHave(Recoded(b), "id")
  {
  }

  /** Recoding leaves one code in the upper array. */
  lemma AllRecoded(a: seq<Value>, b: seq<Value>, id: string)
    requires AllHave(a, "id") && AllHave(b, "id") && Hashable(b, "id") && Apart(a, b, "id")
    ensures var r := PutAll(b, Recoded(b) + [Coded(id, Scalar("c"))], "id");
            && AllHave(r, "code") && AllHave(r, "id") && Hashable(r, "code")
            && forall i | 0 <= i < |r| :: r[i].fields["code"] == Scalar("c")
  {
    hide PutAll, LastIndex, LastItem;
    var c := Recoded(b) + [Coded(id, Scalar("c"))];
    RecodedShape(b, id);
    var r := PutAll(b, c, "id");
    MergedItems(b, c, "id");
    forall i | 0 <= i < |r| ensures r[i] in c {
      LastIsRecoded(b, c, r[i]);
    }
    forall i | 0 <= i < |r| ensures HasField(r[i], "code") && r[i].fields["code"] == Scalar("c") {
      assert r[i] in c;
    }
  }

  lemma LastIsRecoded(b: seq<Value>, c: seq<Value>, x: Value)
    requires AllHave(b, "id") && AllHave(c, "id") && |c| >= |b| && HasField(x, "id")
    requires forall i | 0 <= i < |b| :: c[i].fields["id"] == b[i].fields["id"]
    requires LastItem(b + c, "id", x.fields["id"]) == Some(x)
    ensures x in c
  {
    var all := b + c;
    var n := LastIndex(all, "id", x.fields["id"]);
    assert forall i | 0 <= i < |b| :: all[i] == b[i] && all[|b| + i] == c[i];
    assert forall i | 0 <= i < |b| && b[i].fields["id"] == x.fields["id"] :: n != i by {
      assert forall i | 0 <= i < |b| :: HasField(all[|b| + i], "id") && all[|b| + i].fields["id"] == b[i].fields["id"];
    }
    assert all[n] == c[n - |b|];
  }

  // ---- the exact condition ----

  lemma SomeArrayBreaks(a: seq<Value>, b: seq<Value>)
    requires !ArraysAlways(a, b)
    ensures exists c :: LeftFirst(a, b, c) != RightFirst(a, b, c)
  {
    hide LeftFirst, RightFirst, Appends, DetectKeyedField, AllHave, Hashable;
    if !Appends(a, b) {
      ScalarItemBreaks(a, b);
    } else {
      match DetectKeyedField(a + b) {
        case None => UnkeyedBreaks(a, b);
        case Some(key) =>
          DetectConcat(a, b);
          if key == "code" {
            if AllHave(a, "id") {
              OldCodeBreaks(a, b);
            } else {
              NamedTwinsBreak(a, b);
            }
          } else if AllHave(b, "code") {
            NewTwinsBreak(a, b);
          } else {
            RecodedBreaks(a, b);
          }
      }
    }
  }

  lemma UnkeyedBreaks(a: seq<Value>, b: seq<Value>)
    requires DetectKeyedField(a + b) == None && (b == [] || DetectKeyedField(b).Some?)
    ensures exists c :: LeftFirst(a, b, c) != RightFirst(a, b, c)
  {
    hide LeftFirst, RightFirst, DetectKeyedField;
    if b != [] {
      MixedArraysBreakAssociativity(a, b);
      ArraysAssociate(a, b, b);
    } else if a != [] {
      assert a + b == a;
      TwinsBreak(a);
    } else {
      EmptyArraysBreak();
    }
  }

  /** Two arrays associate below every third one if and only if they append and, besides, no
      array on top is keyed in one bracketing and not, or otherwise, in the other. */
  lemma ArraysAssociateIff(a: seq<Value>, b: seq<Value>)
    ensures (forall c :: LeftFirst(a, b, c) == RightFirst(a, b, c)) <==> ArraysAlways(a, b)
  {
    hide LeftFirst, RightFirst, ArraysAlways;
    if ArraysAlways(a, b) {
      forall c ensures LeftFirst(a, b, c) == RightFirst(a, b, c) {
        AlwaysSuffices(a, b, c);
      }
    } else {
      SomeArrayBreaks(a, b);
    }
  }

  /** So for arrays that are not keyed together: the upper one must have items, and must not be
      keyed by itself. */
  lemma UnkeyedAssociateIff(a: seq<Value>, b: seq<Value>)
    requires DetectKeyedField(a + b) == None
    ensures (forall c :: Associates(Array(a), Array(b), c)) <==> b != [] && DetectKeyedField(b) == None
  {
    hide Associates;
    ArrayValuesAssociateIff(a, b);
  }

  /** The condition for any two values. */
  predicate Always(a: Value, b: Value)
    decreases a
  {
    if !SameKind(a, b) then a.Scalar? || a == Table(map[])
    else
      match a
      case Scalar(_) => true
      case Array(items) => ArraysAlways(items, b.items)
      case Table(fields) =>
        DeepMerge(a, b).Ok? && forall k | k in fields && k in b.fields :: Always(fields[k], b.fields[k])
  }

  lemma ArrayUnderOther(a: seq<Value>, b: seq<Value>, c: Value)
    requires ArraysAlways(a, b) && !c.Array?
    ensures Associates(Array(a), Array(b), c)
  {
    hide MergeArrays;
    AppendsIff(a, b);
  }

  lemma ArrayValuesAssociateIff(a: seq<Value>, b: seq<Value>)
    ensures (forall c :: Associates(Array(a), Array(b), c)) <==> ArraysAlways(a, b)
  {
    hide Associates, LeftFirst, RightFirst, ArraysAlways;
    ArraysAssociateIff(a, b);
    if ArraysAlways(a, b) {
      forall c ensures Associates(Array(a), Array(b), c) {
        if c.Array? {
          ArraysAssociate(a, b, c.items);
        } else {
          ArrayUnderOther(a, b, c);
        }
      }
    } else {
      var c :| LeftFirst(a, b, c) != RightFirst(a, b, c);
      ArraysAssociate(a, b, c);
    }
  }

  /** The field of a merge of tables, where both have one. */
  lemma MergedField(a: Value, b: Value, k: string)
    requires a.Table? && b.Table? && DeepMerge(a, b).Ok?
    ensures DeepMerge(a, b).value.Table?
    ensures var f := DeepMerge(a, b).value.fields;
            && (k in f <==> k in a.fields || k in b.fields)
            && (k in a.fields && k !in b.fields ==> f[k] == a.fields[k])
            && (k in b.fields && k !in a.fields ==> f[k] == b.fields[k])
            && (k in a.fields && k in b.fields ==> DeepMerge(a.fields[k], b.fields[k]) == Ok(f[k]))
  {
  }

  lemma MergesIff(a: Value, b: Value)
    requires a.Table? && b.Table?
    ensures DeepMerge(a, b).Ok? <==> forall k | k in a.fields && k in b.fields :: DeepMerge(a.fields[k], b.fields[k]).Ok?
  {
  }

  /** Tables associate under a table if they merge and the fields that all three have do. */
  lemma TablesAssociate(a: Value, b: Value, c: Value)
    requires a.Table? && b.Table? && c.Table? && DeepMerge(a, b).Ok?
    requires forall k | k in a.fields && k in b.fields && k in c.fields :: Associates(a.fields[k], b.fields[k], c.fields[k])
    ensures Associates(a, b, c)
  {
    hide DeepMerge;
    var ab := DeepMerge(a, b).value;
    MergesIff(a, b);
    MergedField(a, b, "");
    MergesIff(ab, c);
    MergesIff(b, c);
    forall k ensures DeepMerge(b, c).Ok? ==> FieldsAssociate(a, b, c, k) {
      if DeepMerge(b, c).Ok? {
        FieldOfThree(a, b, c, k);
      }
    }
    if DeepMerge(b, c).Ok? {
      MergedField(b, c, "");
      var bc := DeepMerge(b, c).value;
      MergesIff(a, bc);
      forall k | k in ab.fields && k in c.fields && DeepMerge(a, bc).Ok? ensures DeepMerge(ab.fields[k], c.fields[k]).Ok? {
        assert FieldsAssociate(a, b, c, k);
        MergedField(b, c, k);
      }
      forall k | k in a.fields && k in bc.fields && DeepMerge(ab, c).Ok? ensures DeepMerge(a.fields[k], bc.fields[k]).Ok? {
        assert FieldsAssociate(a, b, c, k);
        MergedField(a, b, k);
      }
      if DeepMerge(ab, c).Ok? {
        SameFields(a, b, c);
      }
    } else {
      var k :| k in b.fields && k in c.fields && DeepMerge(b.fields[k], c.fields[k]).TypeError?;
      MergedField(a, b, k);
      assert k in a.fields ==> Associates(a.fields[k], b.fields[k], c.fields[k]);
    }
  }

  /** What both bracketings have at one field, if they get that far. */
  predicate FieldsAssociate(a: Value, b: Value, c: Value, k: string)
    requires a.Table? && b.Table? && c.Table? && DeepMerge(a, b).Ok? && DeepMerge(b, c).Ok?
  {
    var ab, bc := DeepMerge(a, b).value, DeepMerge(b, c).value;
    ab.Table? && bc.Table? &&
    (k in ab.fields && k in c.fields && k in a.fields && k in bc.fields ==>
      DeepMerge(ab.fields[k], c.fields[k]) == DeepMerge(a.fields[k], bc.fields[k])) &&
    (k in ab.fields && k in c.fields && k !in a.fields ==> DeepMerge(ab.fields[k], c.fields[k]).Ok?) &&
    (k in a.fields && k in bc.fields && k !in c.fields ==> DeepMerge(a.fields[k], bc.fields[k]).Ok?)
  }

  lemma FieldOfThree(a: Value, b: Value, c: Value, k: string)
    requires a.Table? && b.Table? && c.Table? && DeepMerge(a, b).Ok? && DeepMerge(b, c).Ok?
    requires k in a.fields && k in b.fields && k in c.fields ==> Associates(a.fields[k], b.fields[k], c.fields[k])
    ensures FieldsAssociate(a, b, c, k)
  {
    hide DeepMerge;
    MergedField(a, b, k);
    MergedField(b, c, k);
  }

  lemma SameFields(a: Value, b: Value, c: Value)
    requires a.Table? && b.Table? && c.Table? && DeepMerge(a, b).Ok? && DeepMerge(b, c).Ok?
    requires DeepMerge(a, b).value.Table? && DeepMerge(b, c).value.Table?
    requires DeepMerge(DeepMerge(a, b).value, c).Ok? && DeepMerge(a, DeepMerge(b, c).value).Ok?
    requires forall k :: FieldsAssociate(a, b, c, k)
    ensures DeepMerge(DeepMerge(a, b).value, c) == DeepMerge(a, DeepMerge(b, c).value)
  {
    hide DeepMerge;
    var ab, bc := DeepMerge(a, b).value, DeepMerge(b, c).value;
    var left, right := DeepMerge(ab, c).value, DeepMerge(a, bc).value;
    MergedField(ab, c, "");
    MergedField(a, bc, "");
    forall k ensures k in left.fields <==> k in right.fields
             ensures k in left.fields ==> left.fields[k] == right.fields[k] {
      MergedField(a, b, k);
      MergedField(b, c, k);
      MergedField(ab, c, k);
      MergedField(a, bc, k);
      assert FieldsAssociate(a, b, c, k);
    }
    assert left.fields == right.fields;
  }

  /** A field that does not associate keeps its tables from doing so. */
  lemma FieldAssociates(a: Value, b: Value, k: string, c: Value)
    requires a.Table? && b.Table? && DeepMerge(a, b).Ok? && k in a.fields && k in b.fields
    requires Associates(a, b, Table(map[k := c]))
    ensures Associates(a.fields[k], b.fields[k], c)
  {
    hide DeepMerge;
    var t := Table(map[k := c]);
    var ab := DeepMerge(a, b).value;
    MergedField(a, b, k);
    MergesIff(b, t);
    MergesIff(ab, t);
    if DeepMerge(b, t).Ok? {
      var bt := DeepMerge(b, t).value;
      MergedField(b, t, k);
      OthersMerge(a, b, k, t);
      if DeepMerge(a, bt).Ok? {
        MergedField(a, bt, k);
        MergedField(ab, t, k);
      }
    }
  }

  /** Below a table with one field, only that field can fail. */
  lemma OthersMerge(a: Value, b: Value, k: string, t: Value)
    requires a.Table? && b.Table? && DeepMerge(a, b).Ok? && t.Table? && t.fields.Keys == {k} && DeepMerge(b, t).Ok?
    requires k in a.fields && k in b.fields
    ensures var bt := DeepMerge(b, t).value;
            bt.Table? && k in bt.fields && (DeepMerge(a, bt).Ok? <==> DeepMerge(a.fields[k], bt.fields[k]).Ok?)
  {
    hide DeepMerge;
    MergedField(b, t, k);
    var bt := DeepMerge(b, t).value;
    MergesIff(a, bt);
    MergesIff(a, b);
    forall j | j in a.fields && j in bt.fields && j != k ensures DeepMerge(a.fields[j], bt.fields[j]).Ok? {
      MergedField(b, t, j);
    }
  }

  lemma TablesMerge(a: Value, b: Value)
    requires a.Table? && b.Table? && Associates(a, b, Scalar(""))
    ensures DeepMerge(a, b).Ok?
  {
  }

  lemma TableUnderOther(a: Value, b: Value, c: Value)
    requires a.Table? && b.Table? && !c.Table? && DeepMerge(a, b).Ok?
    ensures Associates(a, b, c)
  {
  }

  /** For any two values: they associate below every third one if and only if they `Always` do. */
  lemma {:induction false} AssociatesIff(a: Value, b: Value)
    ensures (forall c :: Associates(a, b, c)) <==> Always(a, b)
    decreases a
  {
    hide Associates, DeepMerge, ArraysAlways;
    if !SameKind(a, b) {
      KindChangeBreaksIff(a, b);
    } else {
      match a {
        case Scalar(_) =>
          forall c ensures Associates(a, b, c) {
            ScalarUnderScalar(a, b, c);
          }
        case Array(items) =>
          ArrayValuesAssociateIff(items, b.items);
        case Table(fields) =>
          forall k | k in fields && k in b.fields
            ensures (forall c :: Associates(fields[k], b.fields[k], c)) <==> Always(fields[k], b.fields[k])
          {
            AssociatesIff(fields[k], b.fields[k]);
          }
          TablesAssociateIff(a, b);
      }
    }
  }

  lemma ScalarUnderScalar(a: Value, b: Value, c: Value)
    requires a.Scalar?
    ensures Associates(a, b, c)
  {
  }

  lemma TablesAssociateIff(a: Value, b: Value)
    requires a.Table? && b.Table?
    ensures (forall c :: Associates(a, b, c)) <==>
              DeepMerge(a, b).Ok? && forall k | k in a.fields && k in b.fields :: forall c :: Associates(a.fields[k], b.fields[k], c)
  {
    hide Associates, DeepMerge;
    if forall c :: Associates(a, b, c) {
      TablesMerge(a, b);
      forall k, c | k in a.fields && k in b.fields ensures Associates(a.fields[k], b.fields[k], c) {
        FieldAssociates(a, b, k, c);
      }
    }
    if DeepMerge(a, b).Ok? && forall k | k in a.fields && k in b.fields :: forall c :: Associates(a.fields[k], b.fields[k], c) {
      forall c ensures Associates(a, b, c) {
        if c.Table? {
          TablesAssociate(a, b, c);
        } else {
          TableUnderOther(a, b, c);
        }
      }
    }
  }
}
