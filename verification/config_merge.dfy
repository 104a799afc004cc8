/** The layered TOML merge of `_bmad/scripts/resolve_customization.py` and
    `_bmad/scripts/resolve_config.py`: keyed arrays, deep merge, dotted lookup,
    and the folds over three and four layers. */
module ConfigMerge {
  import opened Seqs
  import opened Text

  /** A parsed TOML value. Strings, numbers, booleans and dates are all scalars, compared as values. */
  datatype Value =
    | Scalar(text: string)
    | Array(items: seq<Value>)
    | Table(fields: map<string, Value>)

  /** Python raises `TypeError` when an array or a table is used as an identifier. */
  datatype Outcome<+T> = Ok(value: T) | TypeError

  // ---- arrays of tables that share an identifier field ----

  predicate HasField(item: Value, key: string) {
    item.Table? && key in item.fields
  }

  predicate AllHave(items: seq<Value>, key: string) {
    forall i | 0 <= i < |items| :: HasField(items[i], key)
  }

  /** `_detect_keyed_merge_field` */
  function DetectKeyedField(items: seq<Value>): Option<string> {
    if items == [] then None
    else if AllHave(items, "code") then Some("code")
    else if AllHave(items, "id") then Some("id")
    else None
  }

  /** Index of the last item whose `key` field is `k`, or `|items|`. */
  function LastIndex(items: seq<Value>, key: string, k: Value): (n: nat)
    ensures n <= |items|
    ensures n < |items| ==> HasField(items[n], key) && items[n].fields[key] == k
    ensures forall i | 0 <= i < |items| && (n < i || n == |items|) ::
              !(HasField(items[i], key) && items[i].fields[key] == k)
  {
    if items == [] then 0
    else
      var m := |items| - 1;
      if HasField(items[m], key) && items[m].fields[key] == k then m
      else
        var n := LastIndex(items[..m], key, k);
        if n == m then m + 1 else n
  }

  /** One override item: replace the last item with the same key, or append. */
  function PutItem(items: seq<Value>, item: Value, key: string): seq<Value> {
    if !HasField(item, key) then items + [item]
    else
      var n := LastIndex(items, key, item.fields[key]);
      if n == |items| then items + [item] else items[n := item]
  }

  function PutAll(items: seq<Value>, over: seq<Value>, key: string): seq<Value> {
    if over == [] then items
    else PutItem(PutAll(items, over[..|over| - 1], key), over[|over| - 1], key)
  }

  function TablesOf(items: seq<Value>): seq<Value> {
    if items == [] then []
    else
      var last := items[|items| - 1];
      TablesOf(items[..|items| - 1]) + (if last.Table? then [last] else [])
  }

  /** The identifiers can be put into a dictionary. */
  predicate Hashable(items: seq<Value>, key: string) {
    forall i | 0 <= i < |items| && HasField(items[i], key) :: items[i].fields[key].Scalar?
  }

  function MergedByKey(base: seq<Value>, over: seq<Value>, key: string): Outcome<seq<Value>> {
    if Hashable(base, key) && Hashable(over, key) then Ok(PutAll(TablesOf(base), over, key)) else TypeError
  }

  /** The index map of the loops: every key to the place of the last item that has it. */
  ghost predicate IndexAgrees(index: map<Value, nat>, items: seq<Value>, key: string) {
    && (forall k | k in index :: index[k] < |items| && index[k] == LastIndex(items, key, k))
    && (forall i | 0 <= i < |items| && HasField(items[i], key) :: items[i].fields[key] in index)
  }

  lemma HashableUpTo(items: seq<Value>, key: string)
    ensures Hashable(items[..0], key) && items[..|items|] == items
    ensures forall i | 0 <= i < |items| && Hashable(items[..i], key) ::
              (HasField(items[i], key) ==> items[i].fields[key].Scalar?) ==> Hashable(items[..i + 1], key)
    ensures forall i | 0 <= i < |items| && HasField(items[i], key) && !items[i].fields[key].Scalar? :: !Hashable(items, key)
  {
  }

  /** `_merge_by_key` */
  method MergeByKey(base: seq<Value>, over: seq<Value>, key: string) returns (r: Outcome<seq<Value>>)
    ensures r == MergedByKey(base, over, key)
  {
    hide LastIndex, Hashable;
    var result: seq<Value> := [];
    var index: map<Value, nat> := map[];
    HashableUpTo(base, key);
    HashableUpTo(over, key);
    for i := 0 to |base|
      invariant result == TablesOf(base[..i])
      invariant Hashable(base[..i], key)
      invariant IndexAgrees(index, result, key)
    {
      var item := base[i];
      assert base[..i + 1][..i] == base[..i];
      if item.Table? {
        AppendAgrees(index, result, item, key);
        if key in item.fields {
          if !item.fields[key].Scalar? {
            return TypeError;
          }
          index := index[item.fields[key] := |result|];
        }
        result := result + [item];
      }
    }
    assert base[..|base|] == base;
    for i := 0 to |over|
      invariant result == PutAll(TablesOf(base), over[..i], key)
      invariant Hashable(over[..i], key)
      invariant IndexAgrees(index, result, key)
    {
      var item := over[i];
      assert over[..i + 1][..i] == over[..i];
      if !HasField(item, key) {
        AppendAgrees(index, result, item, key);
        result := result + [item];
      } else {
        var k := item.fields[key];
        if !k.Scalar? {
          return TypeError;
        }
        if k in index {
          ReplaceAgrees(index, result, item, key);
          result := result[index[k] := item];
        } else {
          AppendAgrees(index, result, item, key);
          index := index[k := |result|];
          result := result + [item];
        }
      }
    }
    assert over[..|over|] == over;
    r := Ok(result);
  }

  lemma AppendAgrees(index: map<Value, nat>, items: seq<Value>, item: Value, key: string)
    requires IndexAgrees(index, items, key)
    ensures IndexAgrees(if HasField(item, key) then index[item.fields[key] := |items|] else index,
                        items + [item], key)
  {
    forall k ensures LastIndex(items + [item], key, k) == AfterAppend(items, item, key, k) {
      LastIndexAppend(items, item, key, k);
    }
  }

  lemma ReplaceAgrees(index: map<Value, nat>, items: seq<Value>, item: Value, key: string)
    requires IndexAgrees(index, items, key) && HasField(item, key) && item.fields[key] in index
    ensures IndexAgrees(index, items[index[item.fields[key]] := item], key)
  {
    forall k ensures LastIndex(items[index[item.fields[key]] := item], key, k) == LastIndex(items, key, k) {
      LastIndexReplace(items, item, key, k);
    }
  }

  function AfterAppend(items: seq<Value>, item: Value, key: string, k: Value): nat {
    if HasField(item, key) && item.fields[key] == k then |items|
    else if LastIndex(items, key, k) < |items| then LastIndex(items, key, k)
    else |items| + 1
  }

  lemma LastIndexAppend(items: seq<Value>, item: Value, key: string, k: Value)
    ensures LastIndex(items + [item], key, k) == AfterAppend(items, item, key, k)
  {
    assert (items + [item])[..|items|] == items;
  }

  lemma LastIndexReplace(items: seq<Value>, item: Value, key: string, k: Value)
    requires HasField(item, key) && LastIndex(items, key, item.fields[key]) < |items|
    ensures LastIndex(items[LastIndex(items, key, item.fields[key]) := item], key, k) == LastIndex(items, key, k)
  {
    var n, m := LastIndex(items, key, item.fields[key]), LastIndex(items, key, k);
    var next := items[n := item];
    assert forall i | 0 <= i < |items| && HasField(next[i], key) ::
        HasField(items[i], key) && next[i].fields[key] == items[i].fields[key];
    if m < |items| {
      assert HasField(next[m], key);
    }
  }

  // ---- the algebra of keyed merging ----

  lemma {:induction false} PutAllAppend(a: seq<Value>, b: seq<Value>, c: seq<Value>, key: string)
    ensures PutAll(a, b + c, key) == PutAll(PutAll(a, b, key), c, key)
  {
    if c == [] {
      assert b + c == b;
    } else {
      assert (b + c)[..|b + c| - 1] == b + c[..|c| - 1];
      PutAllAppend(a, b, c[..|c| - 1], key);
    }
  }

  lemma PutAllOne(a: seq<Value>, item: Value, key: string)
    ensures PutAll(a, [item], key) == PutItem(a, item, key)
  {
    assert [item][..0] == [];
  }

  /** Putting a second item with the same key hides the first. */
  lemma PutTwice(a: seq<Value>, x: Value, y: Value, key: string)
    requires HasField(x, key) && HasField(y, key) && x.fields[key] == y.fields[key]
    ensures PutItem(PutItem(a, x, key), y, key) == PutItem(a, y, key)
  {
    var n := LastIndex(a, key, x.fields[key]);
    if n == |a| {
      LastIndexAppend(a, x, key, x.fields[key]);
      assert (a + [x])[|a| := y] == a + [y];
    } else {
      LastIndexReplace(a, x, key, x.fields[key]);
    }
  }

  /** Overwriting a key that is already there commutes with putting another key. */
  lemma PutCommutes(a: seq<Value>, x: Value, y: Value, key: string)
    requires HasField(x, key) && HasField(y, key) && x.fields[key] != y.fields[key]
    requires LastIndex(a, key, y.fields[key]) < |a|
    ensures PutItem(PutItem(a, x, key), y, key) == PutItem(PutItem(a, y, key), x, key)
  {
    var n, m := LastIndex(a, key, x.fields[key]), LastIndex(a, key, y.fields[key]);
    LastIndexReplace(a, y, key, x.fields[key]);
    if n == |a| {
      LastIndexAppend(a, x, key, y.fields[key]);
    } else {
      LastIndexReplace(a, x, key, y.fields[key]);
    }
  }

  lemma {:induction false} PutAllCommutes(a: seq<Value>, over: seq<Value>, y: Value, key: string)
    requires HasField(y, key) && LastIndex(a, key, y.fields[key]) < |a|
    requires AllHave(over, key) && forall i | 0 <= i < |over| :: over[i].fields[key] != y.fields[key]
    ensures PutItem(PutAll(a, over, key), y, key) == PutAll(PutItem(a, y, key), over, key)
    ensures LastIndex(PutAll(a, over, key), key, y.fields[key]) < |PutAll(a, over, key)|
  {
    if over != [] {
      var init, x := over[..|over| - 1], over[|over| - 1];
      PutAllCommutes(a, init, y, key);
      var b := PutAll(a, init, key);
      PutCommutes(b, x, y, key);
      PutKeepsKeys(b, x, key, y.fields[key]);
    }
  }

  lemma PutKeepsKeys(a: seq<Value>, x: Value, key: string, k: Value)
    requires HasField(x, key)
    ensures LastIndex(PutItem(a, x, key), key, k) < |PutItem(a, x, key)|
       <==> LastIndex(a, key, k) < |a| || x.fields[key] == k
  {
    if LastIndex(a, key, x.fields[key]) == |a| {
      LastIndexAppend(a, x, key, k);
    } else {
      LastIndexReplace(a, x, key, k);
    }
  }

  /** Merging an updated override is updating the merge. */
  lemma PutAllPut(a: seq<Value>, over: seq<Value>, y: Value, key: string)
    requires AllHave(over, key) && HasField(y, key)
    ensures PutAll(a, PutItem(over, y, key), key) == PutItem(PutAll(a, over, key), y, key)
  {
    hide LastIndex;
    var n := LastIndex(over, key, y.fields[key]);
    if n == |over| {
      PutAllAppend(a, over, [y], key);
      PutAllOne(PutAll(a, over, key), y, key);
    } else {
      PutAllReplace(a, over, n, y, key);
    }
  }

  lemma PutAllReplace(a: seq<Value>, over: seq<Value>, n: nat, y: Value, key: string)
    requires AllHave(over, key) && HasField(y, key) && n < |over| && n == LastIndex(over, key, y.fields[key])
    ensures PutAll(a, over[n := y], key) == PutItem(PutAll(a, over, key), y, key)
  {
    hide LastIndex, PutItem, PutAll;
    var before, x, after := over[..n], over[n], over[n + 1..];
    assert over == before + ([x] + after) && over[n := y] == before + ([y] + after);
    var b := PutAll(a, before, key);
    PutAllMiddle(a, before, x, after, key);
    PutAllMiddle(a, before, y, after, key);
    PutTwice(b, x, y, key);
    PutKeepsKeys(b, x, key, x.fields[key]);
    PutAllCommutes(PutItem(b, x, key), after, y, key);
  }

  lemma PutAllMiddle(a: seq<Value>, before: seq<Value>, x: Value, after: seq<Value>, key: string)
    ensures PutAll(a, before + ([x] + after), key) == PutAll(PutItem(PutAll(a, before, key), x, key), after, key)
  {
    PutAllAppend(a, before, [x] + after, key);
    PutAllAppend(PutAll(a, before, key), [x], after, key);
    PutAllOne(PutAll(a, before, key), x, key);
  }

  /** Keyed merging is associative, whatever duplicate keys the arrays hold. */
  lemma {:induction false} PutAllAssociative(a: seq<Value>, b: seq<Value>, c: seq<Value>, key: string)
    requires AllHave(b, key) && AllHave(c, key)
    ensures PutAll(PutAll(a, b, key), c, key) == PutAll(a, PutAll(b, c, key), key)
    ensures AllHave(PutAll(b, c, key), key)
  {
    if c != [] {
      PutAllAssociative(a, b, c[..|c| - 1], key);
      PutAllPut(a, PutAll(b, c[..|c| - 1], key), c[|c| - 1], key);
    }
  }

  // ---- what a keyed merge contains ----

  function Keys(items: seq<Value>, key: string): (ks: seq<Value>)
    requires AllHave(items, key)
    ensures |ks| == |items|
  {
    seq(|items|, i requires 0 <= i < |items| => items[i].fields[key])
  }

  predicate DistinctKeys(items: seq<Value>, key: string) {
    && AllHave(items, key)
    && forall i, j | 0 <= i < j < |items| :: items[i].fields[key] != items[j].fields[key]
  }

  /** The last item for `k`, if there is one. */
  function LastItem(items: seq<Value>, key: string, k: Value): Option<Value> {
    var n := LastIndex(items, key, k);
    if n == |items| then None else Some(items[n])
  }

  lemma LastItemAppend(items: seq<Value>, x: Value, key: string, k: Value)
    requires HasField(x, key)
    ensures LastItem(items + [x], key, k) == if x.fields[key] == k then Some(x) else LastItem(items, key, k)
  {
    hide LastIndex;
    LastIndexAppend(items, x, key, k);
  }

  lemma LastItemPut(items: seq<Value>, x: Value, key: string, k: Value)
    requires HasField(x, key)
    ensures LastItem(PutItem(items, x, key), key, k) == if x.fields[key] == k then Some(x) else LastItem(items, key, k)
  {
    hide LastIndex;
    if LastIndex(items, key, x.fields[key]) == |items| {
      LastItemAppend(items, x, key, k);
    } else {
      LastIndexReplace(items, x, key, k);
    }
  }

  /** Each key of a keyed merge carries its last item, whatever duplicates there were. */
  lemma {:induction false} LastItemWins(base: seq<Value>, over: seq<Value>, key: string, k: Value)
    requires AllHave(base, key) && AllHave(over, key)
    ensures AllHave(PutAll(base, over, key), key)
    ensures LastItem(PutAll(base, over, key), key, k) == LastItem(base + over, key, k)
  {
    hide LastItem, LastIndex;
    if over == [] {
      assert base + over == base;
    } else {
      var init, x := over[..|over| - 1], over[|over| - 1];
      LastItemWins(base, init, key, k);
      assert base + over == base + init + [x];
      LastItemAppend(base + init, x, key, k);
      LastItemPut(PutAll(base, init, key), x, key, k);
    }
  }

  /** The keys of a keyed merge over distinct base keys: the base keys in place, then the new
      keys of the override in the order they first appear, each once. */
  lemma {:induction false} KeysOfMerge(base: seq<Value>, over: seq<Value>, key: string)
    requires DistinctKeys(base, key) && AllHave(over, key)
    ensures AllHave(PutAll(base, over, key), key)
    ensures Keys(PutAll(base, over, key), key) == FirstSeen(Keys(base, key) + Keys(over, key))
  {
    hide LastIndex, FirstSeen, Keys, PutItem, PutAll;
    if over == [] {
      NoKeysPut(base, key);
      FirstSeenOfDistinct(Keys(base, key));
    } else {
      var init, x := over[..|over| - 1], over[|over| - 1];
      KeysOfMerge(base, init, key);
      KeysOfPut(PutAll(base, init, key), x, key);
      FirstSeenSnoc(Keys(base, key) + Keys(init, key), x.fields[key]);
      OneKeyMore(base, over, key);
      assert Keys(base, key) + Keys(over, key) == Keys(base, key) + Keys(init, key) + [x.fields[key]];
    }
  }

  lemma NoKeysPut(base: seq<Value>, key: string)
    requires DistinctKeys(base, key)
    ensures PutAll(base, [], key) == base && Keys(base, key) + Keys([], key) == Keys(base, key)
    ensures forall i, j | 0 <= i < j < |base| :: Keys(base, key)[i] != Keys(base, key)[j]
  {
  }

  lemma OneKeyMore(base: seq<Value>, over: seq<Value>, key: string)
    requires AllHave(over, key) && over != []
    ensures var init, x := over[..|over| - 1], over[|over| - 1];
            && Keys(over, key) == Keys(init, key) + [x.fields[key]]
            && PutAll(base, over, key) == PutItem(PutAll(base, init, key), x, key)
  {
    hide LastIndex, PutItem;
  }

  lemma KeysOfPut(items: seq<Value>, x: Value, key: string)
    requires AllHave(items, key) && HasField(x, key)
    ensures AllHave(PutItem(items, x, key), key)
    ensures Keys(PutItem(items, x, key), key)
         == if x.fields[key] in Keys(items, key) then Keys(items, key) else Keys(items, key) + [x.fields[key]]
  {
    hide LastIndex;
    KeyOccurs(items, key, x.fields[key]);
  }

  lemma KeyOccurs(items: seq<Value>, key: string, k: Value)
    requires AllHave(items, key)
    ensures k in Keys(items, key) <==> LastIndex(items, key, k) < |items|
  {
    var n := LastIndex(items, key, k);
    if n < |items| {
      assert Keys(items, key)[n] == k;
    }
    if k in Keys(items, key) {
      var i :| 0 <= i < |items| && Keys(items, key)[i] == k;
      assert items[i].fields[key] == k;
    }
  }

  /** Keyed merge over distinct base keys, in full: distinct keys, base items at their places,
      and each item the last one given for its key. With `KeysOfMerge` this fixes the result. */
  lemma MergedItems(base: seq<Value>, over: seq<Value>, key: string)
    requires DistinctKeys(base, key) && AllHave(over, key)
    ensures var r := PutAll(base, over, key);
            && DistinctKeys(r, key)
            && |base| <= |r|
            && (forall i | 0 <= i < |base| :: r[i].fields[key] == base[i].fields[key])
            && (forall i | 0 <= i < |r| :: LastItem(base + over, key, r[i].fields[key]) == Some(r[i]))
  {
    hide LastIndex, FirstSeen, PutAll;
    var r := PutAll(base, over, key);
    KeysOfMerge(base, over, key);
    var ks := Keys(r, key);
    FirstSeenOfDistinct(Keys(base, key));
    FirstSeenPrefix(Keys(base, key), Keys(over, key));
    assert Keys(base, key) <= ks;
    forall i, j | 0 <= i < j < |r| ensures r[i].fields[key] != r[j].fields[key] {
      assert ks[i] != ks[j];
    }
    forall i | 0 <= i < |base| ensures r[i].fields[key] == base[i].fields[key] {
      assert ks[i] == Keys(base, key)[i];
    }
    forall i | 0 <= i < |r| ensures LastItem(base + over, key, r[i].fields[key]) == Some(r[i]) {
      LastItemWins(base, over, key, r[i].fields[key]);
      LastIndexUnique(r, key, r[i].fields[key], i);
    }
  }

  /** Items without the key are put behind the tables of the base, in order. */
  lemma {:induction false} KeylessAreAppended(base: seq<Value>, over: seq<Value>, key: string)
    requires Hashable(base, key) && forall i | 0 <= i < |over| :: !HasField(over[i], key)
    ensures MergedByKey(base, over, key) == Ok(TablesOf(base) + over)
  {
    if over == [] {
      assert TablesOf(base) + over == TablesOf(base);
    } else {
      var init, last := over[..|over| - 1], over[|over| - 1];
      KeylessAreAppended(base, init, key);
      assert TablesOf(base) + over == TablesOf(base) + init + [last];
    }
  }

  lemma LastIndexUnique(items: seq<Value>, key: string, k: Value, n: nat)
    requires n < |items| && HasField(items[n], key) && items[n].fields[key] == k
    requires forall i | n < i < |items| :: !(HasField(items[i], key) && items[i].fields[key] == k)
    ensures LastIndex(items, key, k) == n
  {
  }

  /** An override whose keys all occur in the base only overwrites, at the last places. */
  lemma {:induction false} PutAllOverwrites(base: seq<Value>, over: seq<Value>, key: string)
    requires AllHave(base, key) && AllHave(over, key)
    requires forall i | 0 <= i < |over| :: LastIndex(base, key, over[i].fields[key]) < |base|
    ensures PutAll(base, over, key) == Overwritten(base, over, key)
  {
    hide LastIndex, LastItem;
    if over == [] {
      forall p | 0 <= p < |base| ensures LastItem([], key, base[p].fields[key]) == None {
        LastItemOfNone(key, base[p].fields[key]);
      }
      assert Overwritten(base, over, key) == base;
    } else {
      var init, x := over[..|over| - 1], over[|over| - 1];
      var n := LastIndex(base, key, x.fields[key]);
      assert over == init + [x];
      PutAllOverwrites(base, init, key);
      LastIndexUnique(Overwritten(base, init, key), key, x.fields[key], n);
      forall p | 0 <= p < |base| ensures Overwritten(base, over, key)[p] == Overwritten(base, init, key)[n := x][p] {
        LastItemAppend(init, x, key, base[p].fields[key]);
      }
    }
  }

  lemma LastItemOfNone(key: string, k: Value)
    ensures LastItem([], key, k) == None
  {
  }

  /** `base` with the last item for each key replaced by the last one in `over`, if any. */
  function Overwritten(base: seq<Value>, over: seq<Value>, key: string): (r: seq<Value>)
    requires AllHave(base, key) && AllHave(over, key)
    ensures |r| == |base| && AllHave(r, key)
    ensures forall p | 0 <= p < |r| :: r[p].fields[key] == base[p].fields[key]
  {
    seq(|base|, p requires 0 <= p < |base| =>
          var k := base[p].fields[key];
          var last := LastItem(over, key, k);
          if p == LastIndex(base, key, k) && last.Some? then last.value else base[p])
  }

  /** Merging a keyed array into itself changes nothing, even with duplicate keys. */
  lemma PutAllIdempotent(items: seq<Value>, key: string)
    requires AllHave(items, key)
    ensures PutAll(items, items, key) == items
  {
    PutAllOverwrites(items, items, key);
    assert Overwritten(items, items, key) == items;
  }

  // ---- deep merge ----

  /** `_merge_arrays` */
  function MergeArrays(base: seq<Value>, over: seq<Value>): Outcome<seq<Value>> {
    match DetectKeyedField(base + over)
    case Some(key) => MergedByKey(base, over, key)
    case None => Ok(base + over)
  }

  /** `deep_merge` */
  function DeepMerge(base: Value, over: Value): Outcome<Value>
    decreases base
  {
    if base.Table? && over.Table? then
      var b, o := base.fields, over.fields;
      if forall k | k in b && k in o :: DeepMerge(b[k], o[k]).Ok? then
        Ok(Table(map k | k in b.Keys + o.Keys ::
                   if k !in o then b[k] else if k !in b then o[k] else DeepMerge(b[k], o[k]).value))
      else TypeError
    else if base.Array? && over.Array? then
      match MergeArrays(base.items, over.items)
      case Ok(items) => Ok(Array(items))
      case TypeError => TypeError
    else Ok(over)
  }

  /** A missing layer is read as the empty table and changes nothing. */
  lemma EmptyLayerIsNeutral(v: Value)
    requires v.Table?
    ensures DeepMerge(v, Table(map[])) == Ok(v)
    ensures DeepMerge(Table(map[]), v) == Ok(v)
  {
    assert DeepMerge(v, Table(map[])).value.fields == v.fields;
    assert DeepMerge(Table(map[]), v).value.fields == v.fields;
  }

  // ---- the schema under which layers may be bracketed at will ----

  /** What every layer agrees on: the kind of value at each path, and for arrays the field
      that identifies the items, if any. */
  datatype Schema =
    | ScalarField
    | CodeArray
    | IdArray
    | PlainArray
    | TableOf(fields: map<string, Schema>)

  predicate KeyedBy(items: seq<Value>, key: string) {
    AllHave(items, key) && Hashable(items, key)
  }

  /** Some item without a `code` is the last one with its `id`, so that it survives merging. */
  predicate KeepsAnIdOnlyItem(items: seq<Value>) {
    exists i | 0 <= i < |items| ::
      && HasField(items[i], "id") && !HasField(items[i], "code")
      && LastItem(items, "id", items[i].fields["id"]) == Some(items[i])
  }

  predicate ArrayObeys(items: seq<Value>, s: Schema) {
    match s
    case CodeArray => KeyedBy(items, "code")
    case IdArray => items == [] || (KeyedBy(items, "id") && KeepsAnIdOnlyItem(items))
    case PlainArray => items == [] || DetectKeyedField(items) == None
    case _ => false
  }

  predicate Obeys(v: Value, s: Schema)
    decreases v
  {
    match v
    case Scalar(_) => s.ScalarField?
    case Array(items) => ArrayObeys(items, s)
    case Table(fields) => s.TableOf? && forall k | k in fields :: k in s.fields && Obeys(fields[k], s.fields[k])
  }

  /** How two arrays of one schema are merged. */
  function ArraysMerged(a: seq<Value>, b: seq<Value>, s: Schema): seq<Value> {
    match s
    case CodeArray => PutAll(a, b, "code")
    case IdArray => PutAll(a, b, "id")
    case _ => a + b
  }

  lemma {:induction false} TablesOfTables(items: seq<Value>)
    requires forall i | 0 <= i < |items| :: items[i].Table?
    ensures TablesOf(items) == items
  {
    if items != [] {
      TablesOfTables(items[..|items| - 1]);
    }
  }

  lemma KeyedMergeDetected(a: seq<Value>, b: seq<Value>, key: string)
    requires KeyedBy(a, key) && KeyedBy(b, key)
    requires a + b == [] || DetectKeyedField(a + b) == Some(key)
    ensures MergeArrays(a, b) == Ok(PutAll(a, b, key))
    ensures KeyedBy(PutAll(a, b, key), key)
  {
    TablesOfTables(a);
    PutAllKeyed(a, b, key);
    if a + b == [] {
      assert a == [] && b == [];
    }
  }

  lemma {:induction false} PutAllKeyed(a: seq<Value>, b: seq<Value>, key: string)
    requires KeyedBy(a, key) && KeyedBy(b, key)
    ensures KeyedBy(PutAll(a, b, key), key)
  {
    hide LastIndex;
    if b != [] {
      PutAllKeyed(a, b[..|b| - 1], key);
    }
  }

  /** Arrays of one schema merge in one way, without failing, into an array of that schema. */
  lemma ArraysMergeInSchema(a: seq<Value>, b: seq<Value>, s: Schema)
    requires ArrayObeys(a, s) && ArrayObeys(b, s)
    ensures MergeArrays(a, b) == Ok(ArraysMerged(a, b, s))
    ensures ArrayObeys(ArraysMerged(a, b, s), s)
  {
    match s {
      case CodeArray =>
        assert AllHave(a + b, "code");
        KeyedMergeDetected(a, b, "code");
      case IdArray =>
        assert AllHave(a + b, "id");
        IdOnlyItemBlocksCode(a, b);
        KeyedMergeDetected(a, b, "id");
        IdOnlyItemSurvives(a, b);
      case PlainArray =>
        PlainStaysPlain(a, b);
    }
  }

  lemma IdOnlyItemBlocksCode(a: seq<Value>, b: seq<Value>)
    requires a == [] || KeepsAnIdOnlyItem(a)
    requires b == [] || KeepsAnIdOnlyItem(b)
    ensures a + b == [] || !AllHave(a + b, "code")
  {
    if b != [] {
      var i :| 0 <= i < |b| && !HasField(b[i], "code");
      assert (a + b)[|a| + i] == b[i];
    } else if a != [] {
      var i :| 0 <= i < |a| && !HasField(a[i], "code");
      assert (a + b)[i] == a[i];
    }
  }

  lemma IdOnlyItemSurvives(a: seq<Value>, b: seq<Value>)
    requires a == [] || (AllHave(a, "id") && KeepsAnIdOnlyItem(a))
    requires b == [] || (AllHave(b, "id") && KeepsAnIdOnlyItem(b))
    ensures PutAll(a, b, "id") == [] || KeepsAnIdOnlyItem(PutAll(a, b, "id"))
  {
    hide LastIndex;
    if b != [] {
      var i :| 0 <= i < |b| && !HasField(b[i], "code") && LastItem(b, "id", b[i].fields["id"]) == Some(b[i]);
      var k, r := b[i].fields["id"], PutAll(a, b, "id");
      LastItemWins(a, b, "id", k);
      LastItemOfAppend(a, b, "id", k);
      assert r[LastIndex(r, "id", k)] == b[i];
    }
  }

  lemma {:induction false} LastItemOfAppend(a: seq<Value>, b: seq<Value>, key: string, k: Value)
    requires AllHave(b, key) && LastItem(b, key, k).Some?
    ensures LastItem(a + b, key, k) == LastItem(b, key, k)
  {
    hide LastIndex;
    var n := LastIndex(b, key, k);
    assert (a + b)[|a| + n] == b[n];
    assert forall i | |a| + n < i < |a + b| :: (a + b)[i] == b[i - |a|];
    LastIndexUnique(a + b, key, k, |a| + n);
  }

  lemma PlainStaysPlain(a: seq<Value>, b: seq<Value>)
    requires a == [] || DetectKeyedField(a) == None
    requires b == [] || DetectKeyedField(b) == None
    ensures DetectKeyedField(a + b) == None
  {
    if a != [] {
      forall key | AllHave(a + b, key) ensures AllHave(a, key) {
        assert forall i | 0 <= i < |a| :: a[i] == (a + b)[i];
      }
    } else {
      assert a + b == b;
    }
  }

  lemma ArraysAssociative(a: seq<Value>, b: seq<Value>, c: seq<Value>, s: Schema)
    requires ArrayObeys(a, s) && ArrayObeys(b, s) && ArrayObeys(c, s)
    ensures ArraysMerged(ArraysMerged(a, b, s), c, s) == ArraysMerged(a, ArraysMerged(b, c, s), s)
  {
    match s {
      case CodeArray => PutAllAssociative(a, b, c, "code");
      case IdArray =>
        PutAllAssociative(a, b, c, "id");
      case PlainArray => assert (a + b) + c == a + (b + c);
    }
  }

  /** Layers of one schema merge without failing into a layer of that schema. */
  lemma {:induction false} MergeKeepsSchema(a: Value, b: Value, s: Schema)
    requires Obeys(a, s) && Obeys(b, s)
    ensures DeepMerge(a, b).Ok? && Obeys(DeepMerge(a, b).value, s)
    decreases a
  {
    if a.Table? && b.Table? {
      forall k | k in a.fields && k in b.fields
        ensures DeepMerge(a.fields[k], b.fields[k]).Ok? && Obeys(DeepMerge(a.fields[k], b.fields[k]).value, s.fields[k])
      {
        MergeKeepsSchema(a.fields[k], b.fields[k], s.fields[k]);
      }
    } else if a.Array? && b.Array? {
      ArraysMergeInSchema(a.items, b.items, s);
    }
  }

  /** The merge of layers that are known to merge. */
  function Merged(a: Value, b: Value): Value
    requires DeepMerge(a, b).Ok?
  {
    DeepMerge(a, b).value
  }

  /** Merging is associative on the layers of one schema. */
  lemma {:induction false} MergeAssociative(a: Value, b: Value, c: Value, s: Schema)
    requires Obeys(a, s) && Obeys(b, s) && Obeys(c, s)
    ensures DeepMerge(a, b).Ok? && DeepMerge(b, c).Ok?
    ensures DeepMerge(Merged(a, b), c).Ok?
    ensures DeepMerge(Merged(a, b), c) == DeepMerge(a, Merged(b, c))
    decreases a
  {
    hide MergeArrays, ArraysMerged, Obeys;
    KindsAgree(a, b, s);
    KindsAgree(b, c, s);
    MergeKeepsSchema(a, b, s);
    MergeKeepsSchema(b, c, s);
    MergeKeepsSchema(Merged(a, b), c, s);
    MergeKeepsSchema(a, Merged(b, c), s);
    if a.Table? && b.Table? && c.Table? {
      var left, right := Merged(Merged(a, b), c), Merged(a, Merged(b, c));
      forall k | k in left.fields ensures k in right.fields && left.fields[k] == right.fields[k] {
        if k in a.fields && k in b.fields && k in c.fields {
          FieldsObey(a, s, k);
          FieldsObey(b, s, k);
          FieldsObey(c, s, k);
          MergeAssociative(a.fields[k], b.fields[k], c.fields[k], s.fields[k]);
        }
      }
      assert left.fields == right.fields;
    } else if a.Array? {
      ItemsObey(a, s);
      ItemsObey(b, s);
      ItemsObey(c, s);
      ArraysMergeInSchema(a.items, b.items, s);
      ArraysMergeInSchema(b.items, c.items, s);
      ArraysMergeInSchema(ArraysMerged(a.items, b.items, s), c.items, s);
      ArraysMergeInSchema(a.items, ArraysMerged(b.items, c.items, s), s);
      ArraysAssociative(a.items, b.items, c.items, s);
    }
  }

  lemma KindsAgree(a: Value, b: Value, s: Schema)
    requires Obeys(a, s) && Obeys(b, s)
    ensures a.Table? == b.Table? && a.Array? == b.Array?
  {
  }

  lemma FieldsObey(v: Value, s: Schema, k: string)
    requires Obeys(v, s) && v.Table? && k in v.fields
    ensures s.TableOf? && k in s.fields && Obeys(v.fields[k], s.fields[k])
  {
  }

  lemma ItemsObey(v: Value, s: Schema)
    requires Obeys(v, s) && v.Array?
    ensures ArrayObeys(v.items, s)
  {
  }

  // ---- when merging a layer into itself changes nothing ----

  /** Every array that is reached through tables is empty, or keyed by hashable identifiers. */
  predicate NothingAppends(v: Value) {
    match v
    case Scalar(_) => true
    case Array(items) => items == [] || KeyedInFull(items)
    case Table(fields) => forall k | k in fields :: NothingAppends(fields[k])
  }

  predicate KeyedInFull(items: seq<Value>) {
    DetectKeyedField(items).Some? && Hashable(items, DetectKeyedField(items).value)
  }

  lemma DetectDoubled(items: seq<Value>)
    ensures DetectKeyedField(items + items) == DetectKeyedField(items)
  {
    forall key ensures AllHave(items + items, key) <==> AllHave(items, key) {
      if AllHave(items + items, key) {
        assert forall i | 0 <= i < |items| :: items[i] == (items + items)[i];
      }
    }
  }

  lemma ArrayIdempotentIff(items: seq<Value>)
    ensures MergeArrays(items, items) == Ok(items) <==> items == [] || KeyedInFull(items)
  {
    DetectDoubled(items);
    match DetectKeyedField(items) {
      case Some(key) =>
        TablesOfTables(items);
        PutAllIdempotent(items, key);
      case None =>
        assert |items + items| == |items| ==> items == [];
        assert items == [] ==> items + items == items;
    }
  }

  /** Merging a layer into itself changes nothing if and only if no array in it is appended,
      and all identifiers can be hashed. */
  lemma {:induction false} MergeIdempotentIff(v: Value)
    ensures DeepMerge(v, v) == Ok(v) <==> NothingAppends(v)
    decreases v
  {
    match v {
      case Scalar(_) =>
      case Array(items) =>
        ArrayIdempotentIff(items);
      case Table(fields) =>
        forall k | k in fields ensures DeepMerge(fields[k], fields[k]) == Ok(fields[k]) <==> NothingAppends(fields[k]) {
          MergeIdempotentIff(fields[k]);
        }
        if forall k | k in fields :: DeepMerge(fields[k], fields[k]) == Ok(fields[k]) {
          assert DeepMerge(v, v).value.fields == fields;
        }
        if DeepMerge(v, v) == Ok(v) {
          forall k | k in fields ensures DeepMerge(fields[k], fields[k]) == Ok(fields[k]) {
            assert DeepMerge(v, v).value.fields[k] == fields[k];
          }
        }
    }
  }

  // ---- folds of layers ----

  function AndThen(lower: Outcome<Value>, upper: Outcome<Value>): Outcome<Value> {
    if lower.Ok? && upper.Ok? then DeepMerge(lower.value, upper.value) else TypeError
  }

  /** The scripts' fold: each layer merged over all the layers below it. */
  function FoldLayers(layers: seq<Value>): Outcome<Value>
    requires layers != []
  {
    if |layers| == 1 then Ok(layers[0])
    else AndThen(FoldLayers(layers[..|layers| - 1]), Ok(layers[|layers| - 1]))
  }

  /** Any other order in which neighbouring layers might be merged. */
  datatype Bracketing = Layer(value: Value) | Over(lower: Bracketing, upper: Bracketing)

  function Layers(t: Bracketing): (layers: seq<Value>)
    ensures layers != []
  {
    match t
    case Layer(v) => [v]
    case Over(lower, upper) => Layers(lower) + Layers(upper)
  }

  function Evaluate(t: Bracketing): Outcome<Value> {
    match t
    case Layer(v) => Ok(v)
    case Over(lower, upper) => AndThen(Evaluate(lower), Evaluate(upper))
  }

  predicate AllObey(layers: seq<Value>, s: Schema) {
    forall i | 0 <= i < |layers| :: Obeys(layers[i], s)
  }

  lemma {:induction false} FoldKeepsSchema(layers: seq<Value>, s: Schema)
    requires layers != [] && AllObey(layers, s)
    ensures FoldLayers(layers).Ok? && Obeys(FoldLayers(layers).value, s)
  {
    if |layers| > 1 {
      FoldKeepsSchema(layers[..|layers| - 1], s);
      MergeKeepsSchema(FoldLayers(layers[..|layers| - 1]).value, layers[|layers| - 1], s);
    }
  }

  /** Folding two stacks of layers apart and merging the results is folding the whole stack. */
  lemma {:induction false} FoldSplits(a: seq<Value>, b: seq<Value>, s: Schema)
    requires a != [] && b != [] && AllObey(a, s) && AllObey(b, s)
    ensures FoldLayers(a + b) == AndThen(FoldLayers(a), FoldLayers(b))
    decreases |b|
  {
    hide DeepMerge, Obeys;
    assert (a + b)[..|a + b| - 1] == a + b[..|b| - 1];
    if |b| == 1 {
      assert a + b[..0] == a;
    } else {
      var init, last := b[..|b| - 1], b[|b| - 1];
      FoldSplits(a, init, s);
      FoldKeepsSchema(a, s);
      FoldKeepsSchema(init, s);
      MergeAssociative(FoldLayers(a).value, FoldLayers(init).value, last, s);
    }
  }

  /** However neighbouring layers of one schema are bracketed, the result is the fold's. */
  lemma {:induction false} BracketingIsFree(t: Bracketing, s: Schema)
    requires AllObey(Layers(t), s)
    ensures Evaluate(t).Ok? && Evaluate(t) == FoldLayers(Layers(t))
  {
    match t {
      case Layer(_) =>
      case Over(lower, upper) =>
        var a, b := Layers(lower), Layers(upper);
        assert forall i | 0 <= i < |a| :: a[i] == (a + b)[i];
        assert forall i | 0 <= i < |b| :: b[i] == (a + b)[|a| + i];
        BracketingIsFree(lower, s);
        BracketingIsFree(upper, s);
        FoldSplits(a, b, s);
        FoldKeepsSchema(Layers(t), s);
    }
  }

  // ---- dotted lookup ----

  function Lookup(data: Value, parts: seq<string>): Option<Value>
    decreases |parts|
  {
    if parts == [] then Some(data)
    else if data.Table? && parts[0] in data.fields then Lookup(data.fields[parts[0]], parts[1..])
    else None
  }

  /** `extract_key` */
  method ExtractKey(data: Value, dottedKey: string) returns (r: Option<Value>)
    ensures r == Lookup(data, SplitOn(dottedKey, '.'))
  {
    var parts := SplitOn(dottedKey, '.');
    var current := data;
    for i := 0 to |parts|
      invariant Lookup(data, parts) == Lookup(current, parts[i..])
    {
      if current.Table? && parts[i] in current.fields {
        current := current.fields[parts[i]];
      } else {
        return None;
      }
    }
    r := Some(current);
  }

  /** Merging two lookups, with a missing value as identity. */
  function MergeLookups(base: Option<Value>, over: Option<Value>): Outcome<Option<Value>> {
    match (base, over)
    case (Some(b), Some(o)) =>
      (match DeepMerge(b, o)
       case Ok(v) => Ok(Some(v))
       case TypeError => TypeError)
    case (None, _) => Ok(over)
    case (_, None) => Ok(base)
  }

  /** The override has something other than a table at a proper prefix of the path. */
  predicate CutsOff(over: Value, parts: seq<string>)
    decreases |parts|
  {
    parts != [] && (!over.Table? || (parts[0] in over.fields && CutsOff(over.fields[parts[0]], parts[1..])))
  }

  /** Looking a path up in a merge is merging the two lookups, except exactly when the override
      cuts off a path that the base has. */
  lemma {:induction false} LookupCommutesIff(base: Value, over: Value, parts: seq<string>)
    requires DeepMerge(base, over).Ok?
    ensures Ok(Lookup(Merged(base, over), parts)) == MergeLookups(Lookup(base, parts), Lookup(over, parts))
       <==> !(CutsOff(over, parts) && Lookup(base, parts).Some?)
    decreases |parts|
  {
    if parts != [] && base.Table? && over.Table? {
      var p := parts[0];
      if p in base.fields && p in over.fields {
        LookupCommutesIff(base.fields[p], over.fields[p], parts[1..]);
      } else if p in base.fields {
        assert Lookup(over, parts) == None;
      }
    }
  }

  /** A scalar of the override is what its path has in the merge, whatever the base has there. */
  lemma ScalarOverrideWins(base: Value, over: Value, parts: seq<string>)
    requires DeepMerge(base, over).Ok? && Lookup(over, parts).Some? && Lookup(over, parts).value.Scalar?
    ensures Lookup(Merged(base, over), parts) == Lookup(over, parts)
  {
    LookupCommutesIff(base, over, parts);
    if CutsOff(over, parts) {
      CutOffIsMissing(over, parts);
    }
  }

  /** No base path disappears unless the override cuts it off; then it does disappear. */
  lemma BasePathSurvivesIff(base: Value, over: Value, parts: seq<string>)
    requires DeepMerge(base, over).Ok? && Lookup(base, parts).Some?
    ensures Lookup(Merged(base, over), parts).Some? <==> !CutsOff(over, parts)
  {
    LookupCommutesIff(base, over, parts);
    if CutsOff(over, parts) {
      CutOffIsGone(base, over, parts);
    }
  }

  lemma {:induction false} CutOffIsGone(base: Value, over: Value, parts: seq<string>)
    requires DeepMerge(base, over).Ok? && CutsOff(over, parts)
    ensures Lookup(Merged(base, over), parts) == None
    decreases |parts|
  {
    if over.Table? {
      var p := parts[0];
      if base.Table? && p in base.fields {
        CutOffIsGone(base.fields[p], over.fields[p], parts[1..]);
      } else {
        CutOffIsMissing(over, parts);
      }
    }
  }

  lemma {:induction false} CutOffIsMissing(over: Value, parts: seq<string>)
    requires CutsOff(over, parts)
    ensures Lookup(over, parts) == None
    decreases |parts|
  {
    if over.Table? {
      CutOffIsMissing(over.fields[parts[0]], parts[1..]);
    }
  }

  // ---- the two scripts ----

  /** What `main` prints: the whole merge, or the requested keys that exist. */
  datatype Output = Everything(merged: Value) | Selected(values: map<string, Value>)

  /** The layers merged in the order of `main`, lowest first, and the keys picked out. */
  method Resolve(layers: seq<Value>, keys: seq<string>) returns (r: Outcome<Output>)
    requires layers != []
    ensures FoldLayers(layers).TypeError? ==> r == TypeError
    ensures FoldLayers(layers).Ok? && keys == [] ==> r == Ok(Everything(FoldLayers(layers).value))
    ensures FoldLayers(layers).Ok? && keys != [] ==>
              r == Ok(Selected(map k | k in keys && Lookup(FoldLayers(layers).value, SplitOn(k, '.')).Some? ::
                                 Lookup(FoldLayers(layers).value, SplitOn(k, '.')).value))
  {
    hide DeepMerge, Lookup, SplitOn;
    var merged := layers[0];
    assert layers[..1] == [layers[0]];
    for i := 1 to |layers|
      invariant FoldLayers(layers[..i]) == Ok(merged)
    {
      assert layers[..i + 1][..i] == layers[..i];
      var next := DeepMerge(merged, layers[i]);
      if next.TypeError? {
        FoldStaysFailed(layers, i + 1);
        return TypeError;
      }
      merged := next.value;
    }
    assert layers[..|layers|] == layers;
    if keys == [] {
      return Ok(Everything(merged));
    }
    var output: map<string, Value> := map[];
    for i := 0 to |keys|
      invariant output == map k | k in keys[..i] && Lookup(merged, SplitOn(k, '.')).Some? ::
                            Lookup(merged, SplitOn(k, '.')).value
    {
      var value := ExtractKey(merged, keys[i]);
      assert keys[..i + 1] == keys[..i] + [keys[i]];
      if value.Some? {
        output := output[keys[i] := value.value];
      }
    }
    assert keys[..|keys|] == keys;
    r := Ok(Selected(output));
  }

  lemma {:induction false} FoldStaysFailed(layers: seq<Value>, n: nat)
    requires 0 < n <= |layers| && FoldLayers(layers[..n]).TypeError?
    ensures FoldLayers(layers).TypeError?
    decreases |layers| - n
  {
    if n == |layers| {
      assert layers[..n] == layers;
    } else {
      assert layers[..n + 1][..n] == layers[..n];
      FoldStaysFailed(layers, n + 1);
    }
  }
}
