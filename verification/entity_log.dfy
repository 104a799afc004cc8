/** `scripts/services/entity-api.py`: an entity store whose every mutation is recorded, with
    its change diff, in an append-only log. */
module EntityLog {
  import opened JsonValues
  import opened Text

  type Entity = Object
  type Key = (string, string)
  type Entities = map<Key, Entity>

  datatype Change = Change(was: Json, becomes: Json)
  type Diff = map<string, Change>

  // ---- diffs ----

  function DiffOf(before: Entity, after: Entity): Diff {
    map k | k in before.Keys + after.Keys && Get(before, k) != Get(after, k) :: Change(Get(before, k), Get(after, k))
  }

  /** `compute_change_diff` */
  method ComputeChangeDiff(before: Option<Entity>, after: Entity) returns (diff: Diff)
    ensures diff == DiffOf(if before.Some? then before.value else map[], after)
  {
    var b: Entity := if before.Some? then before.value else map[];
    diff := map[];
    var keys := b.Keys + after.Keys;
    while keys != {}
      invariant keys <= b.Keys + after.Keys
      invariant diff == map k | k in b.Keys + after.Keys - keys && Get(b, k) != Get(after, k) ::
                          Change(Get(b, k), Get(after, k))
      decreases keys
    {
      var key :| key in keys;
      if Get(b, key) != Get(after, key) {
        diff := diff[key := Change(Get(b, key), Get(after, key))];
      }
      keys := keys - {key};
    }
  }

  /** An entity as `get` sees it: null and absent are the same. */
  function Normal(e: Entity): Entity {
    map k | k in e && e[k] != JNull :: e[k]
  }

  function ApplyDiff(e: Entity, d: Diff): Entity {
    map k | k in e.Keys + d.Keys && (if k in d then d[k].becomes else e[k]) != JNull ::
      if k in d then d[k].becomes else e[k]
  }

  function UndoDiff(e: Entity, d: Diff): Entity {
    map k | k in e.Keys + d.Keys && (if k in d then d[k].was else e[k]) != JNull ::
      if k in d then d[k].was else e[k]
  }

  /** A diff leads from the entity before to the one after. */
  lemma DiffLeadsForward(before: Entity, after: Entity)
    ensures ApplyDiff(Normal(before), DiffOf(before, after)) == Normal(after)
  {
    var r := ApplyDiff(Normal(before), DiffOf(before, after));
    forall k ensures Get(r, k) == Get(Normal(after), k) {
    }
    SameNormal(r, Normal(after));
  }

  /** And back. */
  lemma DiffLeadsBack(before: Entity, after: Entity)
    ensures UndoDiff(Normal(after), DiffOf(before, after)) == Normal(before)
  {
    var r := UndoDiff(Normal(after), DiffOf(before, after));
    forall k ensures Get(r, k) == Get(Normal(before), k) {
    }
    SameNormal(r, Normal(before));
  }

  /** A diff is empty exactly when `get` cannot tell the entities apart. */
  lemma EmptyDiffIff(before: Entity, after: Entity)
    ensures DiffOf(before, after) == map[] <==> Normal(before) == Normal(after)
  {
    var d := DiffOf(before, after);
    forall k ensures k !in d <==> Get(Normal(before), k) == Get(Normal(after), k) {
    }
    if Normal(before) == Normal(after) {
      assert d.Keys == {};
    }
    if d == map[] {
      SameNormal(Normal(before), Normal(after));
    }
  }

  lemma SameNormal(a: Entity, b: Entity)
    requires forall k | k in a :: a[k] != JNull
    requires forall k | k in b :: b[k] != JNull
    requires forall k :: Get(a, k) == Get(b, k)
    ensures a == b
  {
    assert forall k | k in a :: Get(a, k) == Get(b, k);
    assert forall k | k in b :: Get(a, k) == Get(b, k);
  }

  // ---- configuration, requests and state ----

  datatype Spec = Spec(entityTypes: set<string>, users: map<string, string>,
                       roles: map<string, set<string>>, bulkLimit: nat)

  /** `is_authorized`; an operation that is missing from a bulk item authorizes nobody. */
  predicate Authorized(spec: Spec, operation: Option<string>, actor: string) {
    && actor in spec.users
    && operation.Some? && operation.value in spec.roles
    && spec.users[actor] in spec.roles[operation.value]
  }

  /** A request body: JSON that is an object, or JSON that is not. */
  datatype Payload = NotAnObject | AnObject(fields: Entity)

  datatype BulkItem =
    | NotAnOperation
    | Operation(operation: Option<string>, entityType: Option<string>, entityId: string, data: Payload)

  datatype Request =
    | Create(entityType: string, entityId: string, data: Payload)
    | Update(entityType: string, entityId: string, data: Payload)
    | Delete(entityType: string, entityId: string)
    | Bulk(items: Option<seq<BulkItem>>)

  datatype Verdict = Success | Unauthorized | NotFound | UnknownOperation

  datatype Record = Record(operation: Option<string>, entityType: string, entityId: string, actor: string,
                           diff: Diff, verdict: Verdict)

  datatype State = State(entities: Entities, log: seq<Record>)

  /** The exit code of a command, or the exception that ends it. */
  datatype Status = Exit(code: nat) | Crashed

  function Logged(st: State, r: Record): State {
    st.(log := st.log + [r])
  }

  /** The document as it is saved, with its own address in it. */
  function Addressed(data: Entity, key: Key): Entity {
    data["entity_type" := JText(key.0)]["entity_id" := JText(key.1)]
  }

  function Found(st: State, key: Key): Entity {
    if key in st.entities then st.entities[key] else map[]
  }

  function SaveCreated(st: State, key: Key, data: Entity, actor: string): State {
    var after := Addressed(data, key);
    State(st.entities[key := after],
          st.log + [Record(Some("create"), key.0, key.1, actor, DiffOf(map[], after), Success)])
  }

  function SaveUpdated(st: State, key: Key, data: Entity, actor: string): State {
    var after := Addressed(data, key);
    State(st.entities[key := after],
          st.log + [Record(Some("update"), key.0, key.1, actor, DiffOf(Found(st, key), after), Success)])
  }

  function Removed(st: State, key: Key, actor: string): State {
    State(st.entities - {key},
          st.log + [Record(Some("delete"), key.0, key.1, actor, DiffOf(Found(st, key), map[]), Success)])
  }

  // ---- single commands ----

  function Denied(st: State, operation: string, key: Key, actor: string): State {
    Logged(st, Record(Some(operation), key.0, key.1, actor, map[], Unauthorized))
  }

  function CreateStep(spec: Spec, actor: string, key: Key, data: Payload, st: State): (State, Status) {
    if key.0 !in spec.entityTypes then (st, Exit(400))
    else if !Authorized(spec, Some("create"), actor) then (Denied(st, "create", key, actor), Exit(403))
    else if data.NotAnObject? then (st, Crashed)
    else (SaveCreated(st, key, data.fields, actor), Exit(0))
  }

  function UpdateStep(spec: Spec, actor: string, key: Key, data: Payload, st: State): (State, Status) {
    if key.0 !in spec.entityTypes then (st, Exit(400))
    else if !Authorized(spec, Some("update"), actor) then (Denied(st, "update", key, actor), Exit(403))
    else if key !in st.entities then (st, Exit(404))
    else if data.NotAnObject? then (st, Crashed)
    else (SaveUpdated(st, key, data.fields, actor), Exit(0))
  }

  function DeleteStep(spec: Spec, actor: string, key: Key, st: State): (State, Status) {
    if key.0 !in spec.entityTypes then (st, Exit(400))
    else if !Authorized(spec, Some("delete"), actor) then (Denied(st, "delete", key, actor), Exit(403))
    else if key !in st.entities then (st, Exit(404))
    else (Removed(st, key, actor), Exit(0))
  }

  // ---- bulk ----

  /** What the authorization loop finds: nothing wrong, or the first item that stops it. */
  datatype Gate = Pass | Refuse(at: nat) | Malformed

  function GateFrom(spec: Spec, actor: string, items: seq<BulkItem>, i: nat): (g: Gate)
    requires i <= |items|
    ensures g.Refuse? ==> i <= g.at < |items| && items[g.at].Operation?
                          && !Authorized(spec, items[g.at].operation, actor)
    ensures g.Pass? ==> forall j | i <= j < |items| ::
                          items[j].Operation? && Authorized(spec, items[j].operation, actor)
    decreases |items| - i
  {
    if i == |items| then Pass
    else if items[i].NotAnOperation? then Malformed
    else if !Authorized(spec, items[i].operation, actor) then Refuse(i)
    else GateFrom(spec, actor, items, i + 1)
  }

  /** One item of the executing loop; a missing entity type or a body that is not an object
      ends the command with an exception. */
  function ItemStep(actor: string, item: BulkItem, st: State): (State, Status)
    requires item.Operation? && item.operation.Some?
  {
    if item.entityType.None? then (st, Crashed)
    else
      var key := (item.entityType.value, item.entityId);
      match item.operation.value
      case "create" =>
        if item.data.NotAnObject? then (st, Crashed) else (SaveCreated(st, key, item.data.fields, actor), Exit(0))
      case "update" =>
        if key !in st.entities then
          (Logged(st, Record(item.operation, key.0, key.1, actor, map[], NotFound)), Exit(0))
        else if item.data.NotAnObject? then (st, Crashed)
        else (SaveUpdated(st, key, item.data.fields, actor), Exit(0))
      case "delete" =>
        (Removed(st, key, actor), Exit(0))
      case _ =>
        (Logged(st, Record(item.operation, key.0, key.1, actor, map[], UnknownOperation)), Exit(0))
  }

  predicate Executable(items: seq<BulkItem>) {
    forall i | 0 <= i < |items| :: items[i].Operation? && items[i].operation.Some?
  }

  /** The executing loop: items in order, up to the first exception. */
  function ItemsRun(actor: string, items: seq<BulkItem>, st: State): (State, Status)
    requires Executable(items)
    decreases |items|
  {
    if items == [] then (st, Exit(0))
    else
      var next := ItemStep(actor, items[0], st);
      if next.1.Crashed? then next else ItemsRun(actor, items[1..], next.0)
  }

  function BulkStep(spec: Spec, actor: string, items: Option<seq<BulkItem>>, st: State): (State, Status) {
    if items.None? || |items.value| > spec.bulkLimit then (st, Exit(400))
    else
      match GateFrom(spec, actor, items.value, 0)
      case Malformed => (st, Crashed)
      case Refuse(i) =>
        var item := items.value[i];
        var t := if item.entityType.Some? then item.entityType.value else "";
        (Logged(st, Record(item.operation, t, item.entityId, actor, map[], Unauthorized)), Exit(403))
      case Pass => ItemsRun(actor, items.value, st)
  }

  function Step(spec: Spec, actor: string, request: Request, st: State): (State, Status) {
    match request
    case Create(t, id, data) => CreateStep(spec, actor, (t, id), data, st)
    case Update(t, id, data) => UpdateStep(spec, actor, (t, id), data, st)
    case Delete(t, id) => DeleteStep(spec, actor, (t, id), st)
    case Bulk(items) => BulkStep(spec, actor, items, st)
  }

  // ---- the commands on a mutable store ----

  /** The entity directory and the mutation log. */
  class EntityApi {
    var entities: Entities
    var log: seq<Record>

    ghost function Now(): State
      reads this
    {
      State(entities, log)
    }

    constructor ()
      ensures Now() == State(map[], [])
    {
      entities, log := map[], [];
    }

    method RecordMutation(operation: Option<string>, entityType: string, entityId: string, actor: string,
                          diff: Diff, verdict: Verdict)
      modifies this`log
      ensures Now() == Logged(old(Now()), Record(operation, entityType, entityId, actor, diff, verdict))
    {
      log := log + [Record(operation, entityType, entityId, actor, diff, verdict)];
    }

    method CreateEntity(spec: Spec, actor: string, t: string, id: string, data: Payload) returns (r: Status)
      modifies this
      ensures (Now(), r) == CreateStep(spec, actor, (t, id), data, old(Now()))
    {
      if t !in spec.entityTypes {
        return Exit(400);
      }
      if !Authorized(spec, Some("create"), actor) {
        RecordMutation(Some("create"), t, id, actor, map[], Unauthorized);
        return Exit(403);
      }
      if data.NotAnObject? {
        return Crashed;
      }
      var after := Addressed(data.fields, (t, id));
      entities := entities[(t, id) := after];
      var diff := ComputeChangeDiff(None, after);
      RecordMutation(Some("create"), t, id, actor, diff, Success);
      r := Exit(0);
    }

    method UpdateEntity(spec: Spec, actor: string, t: string, id: string, data: Payload) returns (r: Status)
      modifies this
      ensures (Now(), r) == UpdateStep(spec, actor, (t, id), data, old(Now()))
    {
      if t !in spec.entityTypes {
        return Exit(400);
      }
      if !Authorized(spec, Some("update"), actor) {
        RecordMutation(Some("update"), t, id, actor, map[], Unauthorized);
        return Exit(403);
      }
      if (t, id) !in entities {
        return Exit(404);
      }
      if data.NotAnObject? {
        return Crashed;
      }
      var before := entities[(t, id)];
      var after := Addressed(data.fields, (t, id));
      entities := entities[(t, id) := after];
      var diff := ComputeChangeDiff(Some(before), after);
      RecordMutation(Some("update"), t, id, actor, diff, Success);
      r := Exit(0);
    }

    method DeleteEntity(spec: Spec, actor: string, t: string, id: string) returns (r: Status)
      modifies this
      ensures (Now(), r) == DeleteStep(spec, actor, (t, id), old(Now()))
    {
      if t !in spec.entityTypes {
        return Exit(400);
      }
      if !Authorized(spec, Some("delete"), actor) {
        RecordMutation(Some("delete"), t, id, actor, map[], Unauthorized);
        return Exit(403);
      }
      if (t, id) !in entities {
        return Exit(404);
      }
      var before := entities[(t, id)];
      entities := entities - {(t, id)};
      var diff := ComputeChangeDiff(Some(before), map[]);
      RecordMutation(Some("delete"), t, id, actor, diff, Success);
      r := Exit(0);
    }

    method BulkOperations(spec: Spec, actor: string, operations: Option<seq<BulkItem>>) returns (r: Status)
      modifies this
      ensures (Now(), r) == BulkStep(spec, actor, operations, old(Now()))
    {
      if operations.None? || |operations.value| > spec.bulkLimit {
        return Exit(400);
      }
      var items := operations.value;
      for i := 0 to |items|
        invariant Now() == old(Now())
        invariant GateFrom(spec, actor, items, 0) == GateFrom(spec, actor, items, i)
      {
        var item := items[i];
        if item.NotAnOperation? {
          return Crashed;
        }
        if !Authorized(spec, item.operation, actor) {
          var t := if item.entityType.Some? then item.entityType.value else "";
          RecordMutation(item.operation, t, item.entityId, actor, map[], Unauthorized);
          return Exit(403);
        }
      }
      assert Executable(items);
      for i := 0 to |items|
        invariant ItemsRun(actor, items, old(Now())) == ItemsRun(actor, items[i..], Now())
      {
        var status := ExecuteItem(actor, items[i]);
        if status.Crashed? {
          return Crashed;
        }
      }
      r := Exit(0);
    }

    method ExecuteItem(actor: string, item: BulkItem) returns (r: Status)
      requires item.Operation? && item.operation.Some?
      modifies this
      ensures (Now(), r) == ItemStep(actor, item, old(Now()))
    {
      if item.entityType.None? {
        return Crashed;
      }
      var t, id := item.entityType.value, item.entityId;
      var before := if (t, id) in entities then Some(entities[(t, id)]) else None;
      var diff: Diff;
      match item.operation.value {
        case "create" =>
          if item.data.NotAnObject? {
            return Crashed;
          }
          var after := Addressed(item.data.fields, (t, id));
          entities := entities[(t, id) := after];
          diff := ComputeChangeDiff(None, after);
        case "update" =>
          if before.None? {
            RecordMutation(item.operation, t, id, actor, map[], NotFound);
            return Exit(0);
          }
          if item.data.NotAnObject? {
            return Crashed;
          }
          var after := Addressed(item.data.fields, (t, id));
          entities := entities[(t, id) := after];
          diff := ComputeChangeDiff(before, after);
        case "delete" =>
          if before.Some? {
            entities := entities - {(t, id)};
          } else {
            assert entities == entities - {(t, id)};
          }
          diff := ComputeChangeDiff(before, map[]);
        case _ =>
          RecordMutation(item.operation, t, id, actor, map[], UnknownOperation);
          return Exit(0);
      }
      RecordMutation(item.operation, t, id, actor, diff, Success);
      r := Exit(0);
    }
  }

  // ---- what a write stores and records ----

  /** The document that is stored for `data`: its own fields, and the address over the two
      address fields. */
  ghost predicate IsDocument(stored: Entity, data: Entity, key: Key) {
    && (forall f: string | f != "entity_type" && f != "entity_id" ::
          (f in stored <==> f in data) && (f in data ==> stored[f] == data[f]))
    && "entity_type" in stored && stored["entity_type"] == JText(key.0)
    && "entity_id" in stored && stored["entity_id"] == JText(key.1)
  }

  predicate SameAt(a: Entities, b: Entities, key: Key) {
    (key in a <==> key in b) && (key in a ==> a[key] == b[key])
  }

  ghost predicate SameBut(a: Entities, b: Entities, key: Key) {
    forall other: Key | other != key :: SameAt(a, b, other)
  }

  /** One success record more, and its diff has exactly the fields that read differently
      afterwards, each with what it was and what it becomes. */
  ghost predicate RecordsChange(st: State, next: State, operation: string, key: Key, actor: string,
                                before: Entity, after: Entity)
  {
    && |next.log| == |st.log| + 1 && next.log[..|st.log|] == st.log
    && (var r := next.log[|st.log|];
        && r == Record(Some(operation), key.0, key.1, actor, r.diff, Success)
        && forall f: string ::
             && (f in r.diff <==> Get(before, f) != Get(after, f))
             && (f in r.diff ==> r.diff[f].was == Get(before, f) && r.diff[f].becomes == Get(after, f)))
  }

  /** The address holds the document for `data`, and one record says what that changed. */
  ghost predicate Writes(st: State, next: State, operation: string, key: Key, actor: string,
                         before: Entity, data: Entity)
  {
    && key in next.entities && IsDocument(next.entities[key], data, key)
    && SameBut(st.entities, next.entities, key)
    && RecordsChange(st, next, operation, key, actor, before, next.entities[key])
  }

  ghost predicate Erases(st: State, next: State, key: Key, actor: string) {
    && key !in next.entities && SameBut(st.entities, next.entities, key)
    && RecordsChange(st, next, "delete", key, actor, if key in st.entities then st.entities[key] else map[], map[])
  }

  /** Nothing stored, and one record of the given verdict with an empty diff. */
  predicate Notes(st: State, next: State, operation: string, key: Key, actor: string, verdict: Verdict) {
    && next.entities == st.entities
    && next.log == st.log + [Record(Some(operation), key.0, key.1, actor, map[], verdict)]
  }

  /** The role the users table gives the actor is among the roles of the operation. */
  predicate RoleAllows(spec: Spec, operation: string, actor: string) {
    actor in spec.users && operation in spec.roles && spec.users[actor] in spec.roles[operation]
  }

  lemma RecordsDiff(st: State, next: State, operation: string, key: Key, actor: string, before: Entity, after: Entity)
    requires next.log == st.log + [Record(Some(operation), key.0, key.1, actor, DiffOf(before, after), Success)]
    ensures RecordsChange(st, next, operation, key, actor, before, after)
  {
  }

  lemma AddressedIsDocument(data: Entity, key: Key)
    ensures IsDocument(Addressed(data, key), data, key)
  {
  }

  lemma CreatedWrites(st: State, key: Key, data: Entity, actor: string)
    ensures Writes(st, SaveCreated(st, key, data, actor), "create", key, actor, map[], data)
  {
    hide RecordsChange, DiffOf, IsDocument, Addressed;
    var next := SaveCreated(st, key, data, actor);
    AddressedIsDocument(data, key);
    RecordsDiff(st, next, "create", key, actor, map[], next.entities[key]);
  }

  lemma UpdatedWrites(st: State, key: Key, data: Entity, actor: string)
    requires key in st.entities
    ensures Writes(st, SaveUpdated(st, key, data, actor), "update", key, actor, st.entities[key], data)
  {
    hide RecordsChange, DiffOf, IsDocument, Addressed;
    var next := SaveUpdated(st, key, data, actor);
    AddressedIsDocument(data, key);
    RecordsDiff(st, next, "update", key, actor, st.entities[key], next.entities[key]);
  }

  lemma RemovedErases(st: State, key: Key, actor: string)
    ensures Erases(st, Removed(st, key, actor), key, actor)
  {
    hide RecordsChange, DiffOf;
    RecordsDiff(st, Removed(st, key, actor), "delete", key, actor, Found(st, key), map[]);
  }

  /** A create stores what is sent and says so, or is refused for the first of four reasons. */
  lemma CreateStores(spec: Spec, actor: string, t: string, id: string, data: Payload, st: State)
    ensures var (next, status) := Step(spec, actor, Create(t, id, data), st);
            if t !in spec.entityTypes then next == st && status == Exit(400)
            else if !RoleAllows(spec, "create", actor) then
              status == Exit(403) && Notes(st, next, "create", (t, id), actor, Unauthorized)
            else if data.NotAnObject? then next == st && status == Crashed
            else status == Exit(0) && Writes(st, next, "create", (t, id), actor, map[], data.fields)
  {
    hide Writes, SaveCreated;
    if data.AnObject? {
      CreatedWrites(st, (t, id), data.fields, actor);
    }
  }

  /** An update puts what is sent in the place of what was there; no field of the old document
      is left. */
  lemma UpdateStores(spec: Spec, actor: string, t: string, id: string, data: Payload, st: State)
    ensures var (next, status) := Step(spec, actor, Update(t, id, data), st);
            if t !in spec.entityTypes then next == st && status == Exit(400)
            else if !RoleAllows(spec, "update", actor) then
              status == Exit(403) && Notes(st, next, "update", (t, id), actor, Unauthorized)
            else if (t, id) !in st.entities then next == st && status == Exit(404)
            else if data.NotAnObject? then next == st && status == Crashed
            else status == Exit(0)
                 && Writes(st, next, "update", (t, id), actor, st.entities[(t, id)], data.fields)
  {
    hide Writes, SaveUpdated;
    if data.AnObject? && (t, id) in st.entities {
      UpdatedWrites(st, (t, id), data.fields, actor);
    }
  }

  lemma DeleteErases(spec: Spec, actor: string, t: string, id: string, st: State)
    ensures var (next, status) := Step(spec, actor, Delete(t, id), st);
            if t !in spec.entityTypes then next == st && status == Exit(400)
            else if !RoleAllows(spec, "delete", actor) then
              status == Exit(403) && Notes(st, next, "delete", (t, id), actor, Unauthorized)
            else if (t, id) !in st.entities then next == st && status == Exit(404)
            else status == Exit(0) && Erases(st, next, (t, id), actor)
  {
    hide Erases, Removed;
    RemovedErases(st, (t, id), actor);
  }

  /** One bulk item does the same, but for the entity type, which it does not look at, and for
      what is missing: it notes an update of nothing and an unknown operation, and records a
      delete of nothing as a success. */
  lemma ItemStores(actor: string, item: BulkItem, st: State)
    requires item.Operation? && item.operation.Some?
    ensures item.entityType.None? ==> ItemStep(actor, item, st) == (st, Crashed)
    ensures item.entityType.Some? ==>
            var key, operation := (item.entityType.value, item.entityId), item.operation.value;
            var (next, status) := ItemStep(actor, item, st);
            if operation == "delete" then status == Exit(0) && Erases(st, next, key, actor)
            else if operation != "create" && operation != "update" then
              status == Exit(0) && Notes(st, next, operation, key, actor, UnknownOperation)
            else if operation == "update" && key !in st.entities then
              status == Exit(0) && Notes(st, next, "update", key, actor, NotFound)
            else if item.data.NotAnObject? then next == st && status == Crashed
            else status == Exit(0)
                 && Writes(st, next, operation, key, actor,
                           if operation == "update" then st.entities[key] else map[], item.data.fields)
  {
    hide Writes, Erases, SaveCreated, SaveUpdated, Removed;
    if item.entityType.Some? {
      var key := (item.entityType.value, item.entityId);
      RemovedErases(st, key, actor);
      if item.data.AnObject? {
        CreatedWrites(st, key, item.data.fields, actor);
        if key in st.entities {
          UpdatedWrites(st, key, item.data.fields, actor);
        }
      }
    }
  }

  /** A bulk command is refused for its form, for its length, or for the first item that is
      not allowed, and otherwise carries out its items. */
  lemma BulkAnswers(spec: Spec, actor: string, operations: Option<seq<BulkItem>>, st: State)
    ensures var (next, status) := Step(spec, actor, Bulk(operations), st);
            if operations.None? || |operations.value| > spec.bulkLimit then next == st && status == Exit(400)
            else
              (var allowed := forall i | 0 <= i < |operations.value| ::
                 && operations.value[i].Operation? && operations.value[i].operation.Some?
                 && RoleAllows(spec, operations.value[i].operation.value, actor);
               if allowed then (next, status) == ItemsRun(actor, operations.value, st)
               else next.entities == st.entities && status in {Exit(403), Crashed})
  {
    if operations.Some? {
      GateOpensIff(spec, actor, operations.value, 0);
    }
  }

  /** The items take their turns one after the other, and the first exception ends the command
      with what was stored until then. */
  lemma {:induction false} ItemsInTurn(actor: string, first: seq<BulkItem>, item: BulkItem, rest: seq<BulkItem>, st: State)
    requires Executable(first + [item] + rest) && Executable(first) && ItemsRun(actor, first, st).1 == Exit(0)
    requires item.Operation? && item.operation.Some? && Executable(rest)
    ensures var next := ItemStep(actor, item, ItemsRun(actor, first, st).0);
            ItemsRun(actor, first + [item] + rest, st) == if next.1.Crashed? then next else ItemsRun(actor, rest, next.0)
    decreases |first|
  {
    hide ItemStep;
    var all := first + [item] + rest;
    if first == [] {
      assert all[0] == item && all[1..] == rest;
    } else {
      assert all[0] == first[0] && all[1..] == first[1..] + [item] + rest;
      ItemsInTurn(actor, first[1..], item, rest, ItemStep(actor, first[0], st).0);
    }
  }

  predicate Names(item: BulkItem, key: Key) {
    item.Operation? && item.entityType == Some(key.0) && item.entityId == key.1
  }

  lemma ItemLeavesOthers(actor: string, item: BulkItem, st: State, key: Key)
    requires item.Operation? && item.operation.Some? && !Names(item, key)
    ensures SameAt(st.entities, ItemStep(actor, item, st).0.entities, key)
  {
    hide DiffOf, Addressed;
  }

  lemma {:induction false} ItemsLeaveOthers(actor: string, items: seq<BulkItem>, st: State, key: Key)
    requires Executable(items) && forall i | 0 <= i < |items| :: !Names(items[i], key)
    ensures SameAt(st.entities, ItemsRun(actor, items, st).0.entities, key)
    decreases |items|
  {
    hide ItemStep;
    if items != [] {
      ItemLeavesOthers(actor, items[0], st, key);
      var next := ItemStep(actor, items[0], st);
      if !next.1.Crashed? {
        ItemsLeaveOthers(actor, items[1..], next.0, key);
      }
    }
  }

  /** When the items of a bulk command all go through, the last one that names an address
      decides what is there: its document after a create, its document or nothing after an
      update, nothing after a delete. An address that no item names is as before. */
  lemma {:induction false} LastItemDecides(actor: string, items: seq<BulkItem>, st: State, n: nat, key: Key)
    requires Executable(items) && ItemsRun(actor, items, st).1 == Exit(0)
    requires n < |items| && Names(items[n], key) && forall i | n < i < |items| :: !Names(items[i], key)
    ensures var after := ItemsRun(actor, items, st).0.entities;
            && (items[n].operation.value == "create" ==> key in after)
            && (items[n].operation.value == "delete" ==> key !in after)
            && (items[n].operation.value in {"create", "update"} && key in after ==>
                  items[n].data.AnObject? && IsDocument(after[key], items[n].data.fields, key))
    decreases |items|
  {
    hide ItemStep, RecordsChange, IsDocument;
    var next := ItemStep(actor, items[0], st);
    if n == 0 {
      ItemStores(actor, items[0], st);
      ItemsLeaveOthers(actor, items[1..], next.0, key);
    } else {
      LastItemDecides(actor, items[1..], next.0, n - 1, key);
    }
  }

  // ---- replaying the log ----

  function Normals(entities: Entities): Entities {
    map key | key in entities :: Normal(entities[key])
  }

  /** The effect of one record: a successful create starts from nothing, a successful update
      applies its diff, a successful delete removes; any other record does nothing. */
  function ReplayOne(entities: Entities, r: Record): Entities {
    var key := (r.entityType, r.entityId);
    if r.verdict != Success then entities
    else if r.operation == Some("create") then entities[key := ApplyDiff(map[], r.diff)]
    else if r.operation == Some("update") then
      entities[key := ApplyDiff(if key in entities then entities[key] else map[], r.diff)]
    else entities - {key}
  }

  function Replay(start: Entities, log: seq<Record>): Entities {
    if log == [] then start else ReplayOne(Replay(start, log[..|log| - 1]), log[|log| - 1])
  }

  /** The log, replayed from nothing, rebuilds the store up to null fields; and every document
      carries its own address. */
  predicate Consistent(st: State) {
    Replay(map[], st.log) == Normals(st.entities) && WellAddressed(st.entities)
  }

  predicate WellAddressed(entities: Entities) {
    forall key | key in entities ::
      Get(entities[key], "entity_type") == JText(key.0) && Get(entities[key], "entity_id") == JText(key.1)
  }

  lemma ReplaySnoc(start: Entities, log: seq<Record>, r: Record)
    ensures Replay(start, log + [r]) == ReplayOne(Replay(start, log), r)
  {
    assert (log + [r])[..|log|] == log;
  }

  lemma NormalsOfPut(entities: Entities, key: Key, e: Entity)
    ensures Normals(entities[key := e]) == Normals(entities)[key := Normal(e)]
  {
  }

  lemma SaveCreatedReplays(st: State, key: Key, data: Entity, actor: string)
    requires Consistent(st)
    ensures Consistent(SaveCreated(st, key, data, actor))
  {
    hide DiffOf, ApplyDiff, Normals, Replay;
    var next := SaveCreated(st, key, data, actor);
    ReplaySnoc(map[], st.log, next.log[|st.log|]);
    DiffLeadsForward(map[], Addressed(data, key));
    assert Normal(map[]) == map[];
    NormalsOfPut(st.entities, key, Addressed(data, key));
  }

  lemma SaveUpdatedReplays(st: State, key: Key, data: Entity, actor: string)
    requires Consistent(st) && key in st.entities
    ensures Consistent(SaveUpdated(st, key, data, actor))
  {
    hide DiffOf, ApplyDiff, Replay, Normal, Normals, Addressed, WellAddressed;
    var next := SaveUpdated(st, key, data, actor);
    ReplaySnoc(map[], st.log, next.log[|st.log|]);
    DiffLeadsForward(st.entities[key], Addressed(data, key));
    NormalsOfPut(st.entities, key, Addressed(data, key));
    NormalsAt(st.entities, key);
    StaysAddressed(st.entities, key, data);
  }

  lemma NormalsAt(entities: Entities, key: Key)
    requires key in entities
    ensures key in Normals(entities) && Normals(entities)[key] == Normal(entities[key])
  {
  }

  lemma StaysAddressed(entities: Entities, key: Key, data: Entity)
    requires WellAddressed(entities)
    ensures WellAddressed(entities[key := Addressed(data, key)])
  {
  }

  lemma RemovedReplays(st: State, key: Key, actor: string)
    requires Consistent(st)
    ensures Consistent(Removed(st, key, actor))
  {
    hide DiffOf, ApplyDiff, Normal, Replay;
    var next := Removed(st, key, actor);
    ReplaySnoc(map[], st.log, next.log[|st.log|]);
    NormalsOfRemoval(st.entities, key);
  }

  lemma NormalsOfRemoval(es: Entities, key: Key)
    ensures Normals(es - {key}) == Normals(es) - {key}
  {
    hide Normal;
  }

  lemma LoggedReplays(st: State, r: Record)
    requires Consistent(st) && r.verdict != Success
    ensures Consistent(Logged(st, r))
  {
    ReplaySnoc(map[], st.log, r);
  }

  lemma ItemReplays(actor: string, item: BulkItem, st: State)
    requires item.Operation? && item.operation.Some? && Consistent(st)
    ensures Consistent(ItemStep(actor, item, st).0)
  {
    hide Consistent;
    if item.entityType.Some? {
      var key := (item.entityType.value, item.entityId);
      match item.operation.value {
        case "create" =>
          if item.data.AnObject? { SaveCreatedReplays(st, key, item.data.fields, actor); }
        case "update" =>
          if key !in st.entities {
            LoggedReplays(st, Record(item.operation, key.0, key.1, actor, map[], NotFound));
          } else if item.data.AnObject? {
            SaveUpdatedReplays(st, key, item.data.fields, actor);
          }
        case "delete" => RemovedReplays(st, key, actor);
        case _ => LoggedReplays(st, Record(item.operation, key.0, key.1, actor, map[], UnknownOperation));
      }
    }
  }

  lemma {:induction false} ItemsReplay(actor: string, items: seq<BulkItem>, st: State)
    requires Executable(items) && Consistent(st)
    ensures Consistent(ItemsRun(actor, items, st).0)
    decreases |items|
  {
    hide Consistent, ItemStep;
    if items != [] {
      ItemReplays(actor, items[0], st);
      var next := ItemStep(actor, items[0], st);
      if !next.1.Crashed? {
        ItemsReplay(actor, items[1..], next.0);
      }
    }
  }

  /** Every command, refused, failing or ending in an exception, keeps the log and the store
      in step. */
  lemma StepReplays(spec: Spec, actor: string, request: Request, st: State)
    requires Consistent(st)
    ensures Consistent(Step(spec, actor, request, st).0)
  {
    hide Consistent;
    match request {
      case Create(t, id, data) =>
        LoggedReplays(st, Record(Some("create"), t, id, actor, map[], Unauthorized));
        if data.AnObject? { SaveCreatedReplays(st, (t, id), data.fields, actor); }
      case Update(t, id, data) =>
        LoggedReplays(st, Record(Some("update"), t, id, actor, map[], Unauthorized));
        if data.AnObject? && (t, id) in st.entities { SaveUpdatedReplays(st, (t, id), data.fields, actor); }
      case Delete(t, id) =>
        LoggedReplays(st, Record(Some("delete"), t, id, actor, map[], Unauthorized));
        RemovedReplays(st, (t, id), actor);
      case Bulk(items) =>
        if items.Some? {
          var gate := GateFrom(spec, actor, items.value, 0);
          if gate.Pass? {
            ItemsReplay(actor, items.value, st);
          } else if gate.Refuse? {
            var item := items.value[gate.at];
            var t := if item.entityType.Some? then item.entityType.value else "";
            LoggedReplays(st, Record(item.operation, t, item.entityId, actor, map[], Unauthorized));
          }
        }
    }
  }

  /** A command with the configuration read for it. */
  datatype Call = Call(spec: Spec, actor: string, request: Request)

  function Run(calls: seq<Call>, st: State): State {
    if calls == [] then st
    else
      var call := calls[|calls| - 1];
      Step(call.spec, call.actor, call.request, Run(calls[..|calls| - 1], st)).0
  }

  /** After any run of commands from the empty store, replaying the log gives the same entities,
      with the same `get` value for every field. */
  lemma {:induction false} LogReplaysToStore(calls: seq<Call>)
    ensures Consistent(Run(calls, State(map[], [])))
  {
    if calls == [] {
      assert Normals(map[]) == map[];
    } else {
      var call := calls[|calls| - 1];
      LogReplaysToStore(calls[..|calls| - 1]);
      StepReplays(call.spec, call.actor, call.request, Run(calls[..|calls| - 1], State(map[], [])));
    }
  }

  // ---- rewinding a record ----

  /** The effect of one record undone from its diff alone. */
  function RewindOne(entities: Entities, r: Record): Entities {
    var key := (r.entityType, r.entityId);
    if r.verdict != Success then entities
    else if r.operation == Some("create") then entities - {key}
    else if r.operation == Some("update") then
      entities[key := UndoDiff(if key in entities then entities[key] else map[], r.diff)]
    else if r.diff == map[] then entities
    else entities[key := UndoDiff(map[], r.diff)]
  }

  /** The only thing the log cannot undo is a create that overwrites: rewinding any other
      record gives back the store as it was before. */
  lemma RewindsIffNotOverwriting(st: State, key: Key, data: Entity, actor: string)
    requires WellAddressed(st.entities)
    ensures var next := SaveCreated(st, key, data, actor);
            RewindOne(Normals(next.entities), next.log[|st.log|]) == Normals(st.entities) <==> key !in st.entities
    ensures key in st.entities ==>
              var next := SaveUpdated(st, key, data, actor);
              RewindOne(Normals(next.entities), next.log[|st.log|]) == Normals(st.entities)
    ensures var next := Removed(st, key, actor);
            RewindOne(Normals(next.entities), next.log[|st.log|]) == Normals(st.entities)
  {
    CreateRewindsIff(st, key, data, actor);
    if key in st.entities {
      UpdateRewinds(st, key, data, actor);
    }
    DeleteRewinds(st, key, actor);
  }

  lemma CreateRewindsIff(st: State, key: Key, data: Entity, actor: string)
    ensures var next := SaveCreated(st, key, data, actor);
            RewindOne(Normals(next.entities), next.log[|st.log|]) == Normals(st.entities) <==> key !in st.entities
  {
    hide DiffOf, UndoDiff, Normal, Addressed;
    var next := SaveCreated(st, key, data, actor);
    NormalsOfPut(st.entities, key, Addressed(data, key));
    assert key !in Normals(st.entities) ==>
        Normals(st.entities)[key := Normal(Addressed(data, key))] - {key} == Normals(st.entities);
  }

  lemma UpdateRewinds(st: State, key: Key, data: Entity, actor: string)
    requires key in st.entities
    ensures var next := SaveUpdated(st, key, data, actor);
            RewindOne(Normals(next.entities), next.log[|st.log|]) == Normals(st.entities)
  {
    hide DiffOf, UndoDiff, Normal, Addressed;
    DiffLeadsBack(st.entities[key], Addressed(data, key));
    NormalsOfPut(st.entities, key, Addressed(data, key));
    var n := Normals(st.entities);
    assert n[key := Normal(Addressed(data, key))][key := n[key]] == n;
  }

  lemma DeleteRewinds(st: State, key: Key, actor: string)
    requires WellAddressed(st.entities)
    ensures var next := Removed(st, key, actor);
            RewindOne(Normals(next.entities), next.log[|st.log|]) == Normals(st.entities)
  {
    hide DiffOf, UndoDiff, Normal, Get, Normals, WellAddressed;
    var n, before := Normals(st.entities), Found(st, key);
    NormalsOfRemoval(st.entities, key);
    EmptyEntity(before);
    DiffLeadsBack(before, map[]);
    NormalsHave(st.entities, key);
    if key in st.entities {
      NormalsAt(st.entities, key);
      AddressIsThere(st.entities, key);
      PutBack(n, key);
    } else {
      assert n - {key} == n;
    }
  }

  lemma NormalsHave(entities: Entities, key: Key)
    ensures key in Normals(entities) <==> key in entities
  {
  }

  lemma AddressIsThere(entities: Entities, key: Key)
    requires WellAddressed(entities) && key in entities
    ensures Get(entities[key], "entity_type") == JText(key.0)
  {
  }

  lemma PutBack(n: Entities, key: Key)
    requires key in n
    ensures (n - {key})[key := n[key]] == n
  {
  }

  lemma EmptyEntity(before: Entity)
    ensures Normal(map[]) == map[]
    ensures DiffOf(before, map[]) == map[] <==> Normal(before) == map[]
    ensures Get(before, "entity_type") != JNull ==> Normal(before) != map[]
  {
    EmptyDiffIff(before, map[]);
    assert Normal(map[]) == map[];
    assert Get(before, "entity_type") != JNull ==> "entity_type" in Normal(before);
  }

  // ---- who may change what ----

  /** Some success record from `start` on names the address. */
  predicate NamedFrom(log: seq<Record>, start: nat, key: Key) {
    exists i | start <= i < |log| :: log[i].verdict == Success && (log[i].entityType, log[i].entityId) == key
  }

  /** The log only grows; every new success record names an operation that the actor's role
      allows; and an entity differs only if such a record names it. */
  ghost predicate Lawful(spec: Spec, actor: string, st: State, next: State) {
    && st.log <= next.log
    && (forall i | |st.log| <= i < |next.log| && next.log[i].verdict == Success ::
          next.log[i].actor == actor && Authorized(spec, next.log[i].operation, actor))
    && (forall key: Key :: NamedFrom(next.log, |st.log|, key) || SameAt(st.entities, next.entities, key))
  }

  lemma LawfulOne(spec: Spec, actor: string, st: State, next: State, r: Record)
    requires next.log == st.log + [r] && r.actor == actor
    requires r.verdict == Success ==> Authorized(spec, r.operation, actor)
    requires forall key: Key | key != (r.entityType, r.entityId) || r.verdict != Success ::
               SameAt(st.entities, next.entities, key)
    ensures Lawful(spec, actor, st, next)
  {
    assert next.log[|st.log|] == r;
  }

  lemma LawfulTwice(spec: Spec, actor: string, a: State, b: State, c: State)
    requires Lawful(spec, actor, a, b) && Lawful(spec, actor, b, c)
    ensures Lawful(spec, actor, a, c)
  {
    forall key: Key ensures NamedFrom(c.log, |a.log|, key) || SameAt(a.entities, c.entities, key) {
      if NamedFrom(b.log, |a.log|, key) {
        var i :| |a.log| <= i < |b.log| && b.log[i].verdict == Success
                 && (b.log[i].entityType, b.log[i].entityId) == key;
        assert c.log[i] == b.log[i];
      } else if NamedFrom(c.log, |b.log|, key) {
        var i :| |b.log| <= i < |c.log| && c.log[i].verdict == Success
                 && (c.log[i].entityType, c.log[i].entityId) == key;
        assert |a.log| <= i;
      }
    }
    forall i | |a.log| <= i < |c.log| && c.log[i].verdict == Success
      ensures c.log[i].actor == actor && Authorized(spec, c.log[i].operation, actor)
    {
      assert i < |b.log| ==> c.log[i] == b.log[i];
    }
  }

  lemma ItemIsLawful(spec: Spec, actor: string, item: BulkItem, st: State)
    requires item.Operation? && item.operation.Some? && Authorized(spec, item.operation, actor)
    ensures Lawful(spec, actor, st, ItemStep(actor, item, st).0)
  {
    hide DiffOf, Authorized, Lawful;
    var next := ItemStep(actor, item, st).0;
    if next == st {
      LawfulNothing(spec, actor, st);
    } else {
      LawfulOne(spec, actor, st, next, next.log[|st.log|]);
    }
  }

  lemma LawfulNothing(spec: Spec, actor: string, st: State)
    ensures Lawful(spec, actor, st, st)
  {
  }

  lemma {:induction false} ItemsAreLawful(spec: Spec, actor: string, items: seq<BulkItem>, st: State)
    requires Executable(items) && forall i | 0 <= i < |items| :: Authorized(spec, items[i].operation, actor)
    ensures Lawful(spec, actor, st, ItemsRun(actor, items, st).0)
    decreases |items|
  {
    hide Lawful, ItemStep, Authorized;
    if items == [] {
      LawfulNothing(spec, actor, st);
    } else {
      var next := ItemStep(actor, items[0], st);
      ItemIsLawful(spec, actor, items[0], st);
      if !next.1.Crashed? {
        ItemsAreLawful(spec, actor, items[1..], next.0);
        LawfulTwice(spec, actor, st, next.0, ItemsRun(actor, items[1..], next.0).0);
      }
    }
  }

  /** Only an actor whose role allows the operation changes anything, and every change is logged. */
  lemma StepIsLawful(spec: Spec, actor: string, request: Request, st: State)
    ensures Lawful(spec, actor, st, Step(spec, actor, request, st).0)
  {
    hide DiffOf, Lawful;
    var next := Step(spec, actor, request, st).0;
    if next == st {
      LawfulNothing(spec, actor, st);
    } else if request.Bulk? && GateFrom(spec, actor, request.items.value, 0).Pass? {
      ItemsAreLawful(spec, actor, request.items.value, st);
    } else {
      LawfulOne(spec, actor, st, next, next.log[|st.log|]);
    }
  }

  // ---- bulk against single commands ----

  /** A bulk item that a single command could carry out. */
  predicate Singular(spec: Spec, actor: string, item: BulkItem) {
    && item.Operation? && Authorized(spec, item.operation, actor)
    && item.operation.value in {"create", "update", "delete"}
    && item.entityType.Some? && item.entityType.value in spec.entityTypes
    && (item.operation.value == "delete" || item.data.AnObject?)
  }

  function AsSingle(item: BulkItem): Request
    requires item.Operation? && item.operation.Some? && item.entityType.Some?
  {
    if item.operation.value == "create" then Create(item.entityType.value, item.entityId, item.data)
    else if item.operation.value == "update" then Update(item.entityType.value, item.entityId, item.data)
    else Delete(item.entityType.value, item.entityId)
  }

  predicate AllSingular(spec: Spec, actor: string, items: seq<BulkItem>) {
    forall i | 0 <= i < |items| :: Singular(spec, actor, items[i])
  }

  /** The single commands, one after the other. */
  function SinglesRun(spec: Spec, actor: string, items: seq<BulkItem>, st: State): State
    requires AllSingular(spec, actor, items)
    decreases |items|
  {
    if items == [] then st
    else SinglesRun(spec, actor, items[1..], Step(spec, actor, AsSingle(items[0]), st).0)
  }

  /** A record of something that happened: an update or delete of nothing leaves none behind
      when it is sent as a single command. */
  predicate Effective(r: Record) {
    r.verdict == Success && (r.operation == Some("delete") ==> r.diff != map[])
  }

  function EffectiveOnly(log: seq<Record>): seq<Record> {
    if log == [] then []
    else EffectiveOnly(log[..|log| - 1]) + (if Effective(log[|log| - 1]) then [log[|log| - 1]] else [])
  }

  /** One item against one command, from states that agree on the entities. */
  lemma ItemRefinesSingle(spec: Spec, actor: string, item: BulkItem, bulk: State, single: State)
    requires Singular(spec, actor, item) && bulk.entities == single.entities && WellAddressed(bulk.entities)
    ensures var b, s := ItemStep(actor, item, bulk), Step(spec, actor, AsSingle(item), single).0;
            && b.1 == Exit(0) && b.0.entities == s.entities && WellAddressed(s.entities)
            && b.0.log == bulk.log + [b.0.log[|bulk.log|]]
            && (b.0.log[|bulk.log|].operation, b.0.log[|bulk.log|].entityType, b.0.log[|bulk.log|].entityId)
               == (item.operation, item.entityType.value, item.entityId)
            && s.log == single.log + EffectiveOnly([b.0.log[|bulk.log|]])
  {
    hide DiffOf, Normal;
    var key := (item.entityType.value, item.entityId);
    var r := ItemStep(actor, item, bulk).0.log[|bulk.log|];
    EffectiveOfOne(r);
    if item.operation.value == "delete" {
      EmptyEntity(Found(bulk, key));
      if key !in bulk.entities {
        assert bulk.entities - {key} == bulk.entities;
      } else {
        assert Get(Found(bulk, key), "entity_type") != JNull;
      }
    }
  }

  lemma EffectiveOfOne(r: Record)
    ensures EffectiveOnly([r]) == if Effective(r) then [r] else []
  {
    assert [r][..0] == [];
  }

  lemma {:induction false} EffectiveOfAppend(a: seq<Record>, b: seq<Record>)
    ensures EffectiveOnly(a + b) == EffectiveOnly(a) + EffectiveOnly(b)
  {
    if b == [] {
      assert a + b == a;
    } else {
      assert (a + b)[..|a + b| - 1] == a + b[..|b| - 1];
      EffectiveOfAppend(a, b[..|b| - 1]);
    }
  }

  predicate NamesItem(r: Record, item: BulkItem)
    requires item.Operation?
  {
    r.operation == item.operation && Some(r.entityType) == item.entityType && r.entityId == item.entityId
  }

  lemma {:induction false} ItemsRefineSingles(spec: Spec, actor: string, items: seq<BulkItem>, bulk: State, single: State)
    requires AllSingular(spec, actor, items) && bulk.entities == single.entities && WellAddressed(bulk.entities)
    ensures var b, s := ItemsRun(actor, items, bulk), SinglesRun(spec, actor, items, single);
            && b.1 == Exit(0) && b.0.entities == s.entities
            && bulk.log <= b.0.log && |b.0.log| == |bulk.log| + |items|
            && (forall i | 0 <= i < |items| :: NamesItem(b.0.log[|bulk.log| + i], items[i]))
            && s.log == single.log + EffectiveOnly(b.0.log[|bulk.log|..])
    decreases |items|
  {
    hide ItemStep, Step, EffectiveOnly, WellAddressed;
    if items == [] {
      assert bulk.log[|bulk.log|..] == [];
      NothingEffective();
    } else {
      var b, s := ItemStep(actor, items[0], bulk).0, Step(spec, actor, AsSingle(items[0]), single).0;
      ItemRefinesSingle(spec, actor, items[0], bulk, single);
      ItemsRefineSingles(spec, actor, items[1..], b, s);
      var last := ItemsRun(actor, items[1..], b).0;
      assert last.log[|bulk.log|] == b.log[|bulk.log|];
      EffectiveOfAppend([b.log[|bulk.log|]], last.log[|b.log|..]);
      assert [b.log[|bulk.log|]] + last.log[|b.log|..] == last.log[|bulk.log|..];
      forall i | 0 <= i < |items| ensures NamesItem(last.log[|bulk.log| + i], items[i]) {
        if i > 0 {
          assert NamesItem(last.log[|b.log| + (i - 1)], items[1..][i - 1]);
        }
      }
    }
  }

  lemma NothingEffective()
    ensures EffectiveOnly([]) == []
  {
  }

  /** A bulk command whose items could all be sent one by one leaves the same entities as
      sending them, and one record per item, in order; the single commands leave the same
      records but for updates and deletes of nothing. */
  lemma BulkRefinesSingles(spec: Spec, actor: string, items: seq<BulkItem>, st: State)
    requires AllSingular(spec, actor, items) && |items| <= spec.bulkLimit && WellAddressed(st.entities)
    ensures var b, s := BulkStep(spec, actor, Some(items), st), SinglesRun(spec, actor, items, st);
            && b.1 == Exit(0) && b.0.entities == s.entities
            && st.log <= b.0.log && |b.0.log| == |st.log| + |items|
            && (forall i | 0 <= i < |items| :: NamesItem(b.0.log[|st.log| + i], items[i]))
            && s.log == st.log + EffectiveOnly(b.0.log[|st.log|..])
  {
    GateOpensIff(spec, actor, items, 0);
    ItemsRefineSingles(spec, actor, items, st, st);
  }

  /** A bulk item on an address that leaves the entities as they are. */
  predicate LeavesAlone(item: BulkItem, st: State)
    requires item.Operation? && item.operation.Some? && item.entityType.Some?
  {
    var key := (item.entityType.value, item.entityId);
    match item.operation.value
    case "create" =>
      item.data.NotAnObject? || (key in st.entities && st.entities[key] == Addressed(item.data.fields, key))
    case "update" =>
      key in st.entities ==> item.data.NotAnObject? || st.entities[key] == Addressed(item.data.fields, key)
    case _ => key !in st.entities
  }

  /** Bulk commands do not look at the entity type: an authorized item and the single command
      for it leave the same entities if and only if the type is known, or there is nothing to
      change: for a create, the address already holds exactly this document; for an update, it
      holds it or nothing; for a delete, nothing. */
  lemma ItemAgreesWithSingleIff(spec: Spec, actor: string, item: BulkItem, st: State)
    requires item.Operation? && Authorized(spec, item.operation, actor) && item.entityType.Some?
    requires item.operation.value in {"create", "update", "delete"}
    ensures ItemStep(actor, item, st).0.entities == Step(spec, actor, AsSingle(item), st).0.entities
       <==> item.entityType.value in spec.entityTypes || LeavesAlone(item, st)
  {
    hide DiffOf, Addressed;
    var key := (item.entityType.value, item.entityId);
    var after := ItemStep(actor, item, st).0.entities;
    if item.operation.value == "delete" {
      assert key !in st.entities ==> st.entities - {key} == st.entities;
      assert key !in after;
    } else if item.data.AnObject? && (item.operation.value == "create" || key in st.entities) {
      assert after == st.entities[key := Addressed(item.data.fields, key)];
      assert key in st.entities && st.entities[key] == Addressed(item.data.fields, key) ==> after == st.entities;
    }
  }

  /** So every authorized bulk create of an unknown type stores what the single command refuses. */
  lemma BulkStoresUnknownTypes(spec: Spec, actor: string, t: string, id: string, data: Entity, st: State)
    requires Authorized(spec, Some("create"), actor) && t !in spec.entityTypes && spec.bulkLimit > 0
    ensures var item := Operation(Some("create"), Some(t), id, AnObject(data));
            && Step(spec, actor, Create(t, id, AnObject(data)), st) == (st, Exit(400))
            && BulkStep(spec, actor, Some([item]), st) == (SaveCreated(st, (t, id), data, actor), Exit(0))
  {
    hide DiffOf, Addressed;
    var item := Operation(Some("create"), Some(t), id, AnObject(data));
    GateOpensIff(spec, actor, [item], 0);
    assert ItemStep(actor, item, st) == (SaveCreated(st, (t, id), data, actor), Exit(0));
    assert [item][1..] == [];
    assert ItemsRun(actor, [], SaveCreated(st, (t, id), data, actor)) == (SaveCreated(st, (t, id), data, actor), Exit(0));
  }

  lemma {:induction false} GateOpensIff(spec: Spec, actor: string, items: seq<BulkItem>, i: nat)
    requires i <= |items|
    ensures GateFrom(spec, actor, items, i).Pass?
       <==> forall j | i <= j < |items| :: items[j].Operation? && Authorized(spec, items[j].operation, actor)
    decreases |items| - i
  {
    if i < |items| {
      GateOpensIff(spec, actor, items, i + 1);
    }
  }

  /** The first item that is not allowed refuses the whole command: no entity changes and
      exactly one record, for that item, is appended; an item that is no object ends it with an
      exception and no record. */
  lemma {:induction false} RefusedBulkChangesNothing(spec: Spec, actor: string, items: seq<BulkItem>, st: State, n: nat)
    requires |items| <= spec.bulkLimit && n < |items|
    requires !(items[n].Operation? && items[n].operation.Some? && RoleAllows(spec, items[n].operation.value, actor))
    requires forall i | 0 <= i < n ::
               items[i].Operation? && items[i].operation.Some? && RoleAllows(spec, items[i].operation.value, actor)
    ensures BulkStep(spec, actor, Some(items), st) ==
            if items[n].NotAnOperation? then (st, Crashed)
            else
              var t := if items[n].entityType.Some? then items[n].entityType.value else "";
              var refused := Record(items[n].operation, t, items[n].entityId, actor, map[], Unauthorized);
              (State(st.entities, st.log + [refused]), Exit(403))
  {
    GateStopsAt(spec, actor, items, 0, n);
  }

  lemma {:induction false} GateStopsAt(spec: Spec, actor: string, items: seq<BulkItem>, i: nat, n: nat)
    requires i <= n < |items| && !(items[n].Operation? && Authorized(spec, items[n].operation, actor))
    requires forall j | i <= j < n :: items[j].Operation? && Authorized(spec, items[j].operation, actor)
    ensures GateFrom(spec, actor, items, i) == if items[n].NotAnOperation? then Malformed else Refuse(n)
    decreases n - i
  {
    if i < n {
      GateStopsAt(spec, actor, items, i + 1, n);
    }
  }
}
