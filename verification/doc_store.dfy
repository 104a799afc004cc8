/** `scripts/services/entity-api-local.py`: documents with revisions and optimistic locking, in
    one store for each region. */
module DocStore {
  import opened JsonValues
  import opened Text

  /** A stored document with its revision number and revision string. */
  datatype Rec = Rec(doc: Object, revision: nat, rev: string, tenant: Json)

  type Docs = map<Json, Rec>

  /** The text Python makes of an identifier. */
  function IdText(id: Json): string {
    match id
    case JNull => "None"
    case JText(t) => t
    case JOther(t) => t
  }

  /** `_rev`; the digest is any function at all. */
  function RevOf(md5: string -> string, id: Json, revision: nat): string {
    Decimal(revision) + "-" + md5(IdText(id) + ":" + Decimal(revision))
  }

  /** The decimal prefix alone tells revisions apart, whatever the digests and the identifiers. */
  lemma RevTellsRevision(md5: string -> string, id1: Json, n1: nat, id2: Json, n2: nat)
    requires RevOf(md5, id1, n1) == RevOf(md5, id2, n2)
    ensures n1 == n2
  {
    DashAfterDecimal(md5, id1, n1);
    DashAfterDecimal(md5, id2, n2);
    DecimalInjective(n1, n2);
  }

  lemma DashAfterDecimal(md5: string -> string, id: Json, n: nat)
    ensures IndexOf(RevOf(md5, id, n), '-') == |Decimal(n)|
    ensures RevOf(md5, id, n)[..|Decimal(n)|] == Decimal(n)
  {
    var r, d := RevOf(md5, id, n), Decimal(n);
    assert r[|d|] == '-';
    assert forall i | 0 <= i < |d| :: r[i] == d[i] && '0' <= d[i] <= '9';
    IndexOfUnique(r, '-', |d|);
  }

  // ---- requests on the store of one region ----

  /** A request that has passed authentication; the tenant is the requester's, if any. */
  datatype Op =
    | Post(tenant: Option<string>, doc: Option<Object>)
    | Put(tenant: Option<string>, id: string, body: Option<Object>)
    | Remove(tenant: Option<string>, id: string)

  datatype Reply =
    | Created(docId: Json, rev: string)
    | Updated(id: string, rev: string)
    | Deleted(id: string)
    | BadRequest
    | NotFound
    | Conflict

  /** `_can_access` */
  predicate CanAccess(rec: Rec, tenant: Option<string>) {
    tenant.None? || rec.tenant == JNull || rec.tenant == JText(tenant.value)
  }

  function CreateDoc(md5: string -> string, docs: Docs, doc: Object, tenant: Option<string>): (Docs, Reply)
    requires "id" in doc
  {
    var id, rev := doc["id"], RevOf(md5, doc["id"], 1);
    (docs[id := Rec(doc, 1, rev, if tenant.Some? then JText(tenant.value) else Get(doc, "company"))],
     Created(id, rev))
  }

  /** The record after a successful update. */
  function Merged(md5: string -> string, rec: Rec, id: string, body: Object): Rec {
    rec.(doc := rec.doc + (body - {"_rev"}),
         revision := rec.revision + 1,
         rev := RevOf(md5, JText(id), rec.revision + 1))
  }

  function UpdateDoc(md5: string -> string, docs: Docs, id: string, body: Object, tenant: Option<string>): (Docs, Reply) {
    if JText(id) !in docs || !CanAccess(docs[JText(id)], tenant) then (docs, NotFound)
    else
      var rec := docs[JText(id)];
      if Get(body, "_rev") != JNull && Get(body, "_rev") != JText(rec.rev) then (docs, Conflict)
      else
        var next := Merged(md5, rec, id, body);
        (docs[JText(id) := next], Updated(id, next.rev))
  }

  function DeleteDoc(docs: Docs, id: string, tenant: Option<string>): (Docs, Reply) {
    if JText(id) !in docs || !CanAccess(docs[JText(id)], tenant) then (docs, NotFound)
    else (docs - {JText(id)}, Deleted(id))
  }

  function Step(md5: string -> string, docs: Docs, op: Op): (Docs, Reply) {
    match op
    case Post(tenant, doc) =>
      if doc.None? || "id" !in doc.value then (docs, BadRequest) else CreateDoc(md5, docs, doc.value, tenant)
    case Put(tenant, id, body) =>
      if body.None? then (docs, BadRequest) else UpdateDoc(md5, docs, id, body.value, tenant)
    case Remove(tenant, id) => DeleteDoc(docs, id, tenant)
  }

  // ---- what a request does to a document ----

  /** A request with a tenant does not see a document of another one. */
  predicate Hidden(docs: Docs, id: string, tenant: Option<string>) {
    JText(id) !in docs ||
    (tenant.Some? && docs[JText(id)].tenant != JNull && docs[JText(id)].tenant != JText(tenant.value))
  }

  predicate SameOthers(a: Docs, b: Docs, id: Json) {
    a - {id} == b - {id}
  }

  /** Each field of the body but `_rev` has the body's value; every other field, and `_rev` as a
      field, is as it was. */
  ghost predicate Overlaid(before: Object, body: Object, after: Object) {
    forall f: string ::
      if f in body && f != "_rev" then f in after && after[f] == body[f]
      else (f in after <==> f in before) && (f in before ==> after[f] == before[f])
  }

  /** A document that is posted is stored as it is, under its own identifier, at revision 1, for
      the sender's tenant or else its company, over any document that was there. */
  lemma PostStores(md5: string -> string, docs: Docs, tenant: Option<string>, doc: Option<Object>)
    ensures var (next, reply) := Step(md5, docs, Post(tenant, doc));
            if doc.None? || "id" !in doc.value then next == docs && reply == BadRequest
            else
              var id := doc.value["id"];
              var text := match id case JNull => "None" case JText(t) => t case JOther(t) => t;
              && reply == Created(id, "1-" + md5(text + ":1"))
              && id in next && SameOthers(docs, next, id)
              && next[id] == Rec(doc.value, 1, reply.rev, if tenant.Some? then JText(tenant.value)
                                                          else if "company" in doc.value then doc.value["company"]
                                                          else JNull)
  {
    if doc.Some? && "id" in doc.value {
      var text := IdText(doc.value["id"]);
      assert Decimal(1) == "1" && text + ":" + "1" == text + ":1";
      assert "1" + "-" + md5(text + ":1") == "1-" + md5(text + ":1");
    }
  }

  /** An update answers for the first of three reasons not to change anything, or merges the
      body into the document, field by field, and moves it to the next revision. */
  lemma PutMerges(md5: string -> string, docs: Docs, tenant: Option<string>, id: string, body: Option<Object>)
    ensures var (next, reply) := Step(md5, docs, Put(tenant, id, body));
            if body.None? then next == docs && reply == BadRequest
            else if Hidden(docs, id, tenant) then next == docs && reply == NotFound
            else
              var (rec, given) := (docs[JText(id)], if "_rev" in body.value then body.value["_rev"] else JNull);
              if given != JNull && given != JText(rec.rev) then next == docs && reply == Conflict
              else
                var n := rec.revision + 1;
                && reply == Updated(id, Decimal(n) + "-" + md5(id + ":" + Decimal(n)))
                && JText(id) in next && SameOthers(docs, next, JText(id))
                && (var after := next[JText(id)];
                    && Overlaid(rec.doc, body.value, after.doc)
                    && after.revision == n && after.rev == reply.rev && after.tenant == rec.tenant)
  {
    hide Decimal;
  }

  lemma RemoveRemoves(md5: string -> string, docs: Docs, tenant: Option<string>, id: string)
    ensures var (next, reply) := Step(md5, docs, Remove(tenant, id));
            if Hidden(docs, id, tenant) then next == docs && reply == NotFound
            else next == docs - {JText(id)} && reply == Deleted(id)
  {
  }

  // ---- the stores as objects ----

  /** A new revision, or the `PermissionError` or `KeyError` of the update. */
  datatype UpdateOutcome = NowAt(rev: string) | Stale | NoDocument

  /** `EntityStore` */
  class EntityStore {
    var documents: Docs

    constructor ()
      ensures documents == map[]
    {
      documents := map[];
    }

    method Create(md5: string -> string, doc: Object, tenant: Option<string>) returns (r: Reply)
      requires "id" in doc
      modifies this
      ensures (documents, r) == CreateDoc(md5, old(documents), doc, tenant)
    {
      var id := doc["id"];
      var rev := RevOf(md5, id, 1);
      documents := documents[id := Rec(doc, 1, rev, if tenant.Some? then JText(tenant.value) else Get(doc, "company"))];
      r := Created(id, rev);
    }

    /** The revisioned update. */
    method Update(md5: string -> string, id: string, body: Object, revision: Json) returns (r: UpdateOutcome)
      modifies this
      ensures JText(id) !in old(documents) ==> r == NoDocument && documents == old(documents)
      ensures JText(id) in old(documents) && revision != JText(old(documents)[JText(id)].rev) ==>
                r == Stale && documents == old(documents)
      ensures JText(id) in old(documents) && revision == JText(old(documents)[JText(id)].rev) ==>
                var next := Merged(md5, old(documents)[JText(id)], id, body);
                r == NowAt(next.rev) && documents == old(documents)[JText(id) := next]
    {
      if JText(id) !in documents {
        return NoDocument;
      }
      var rec := documents[JText(id)];
      if JText(rec.rev) != revision {
        return Stale;
      }
      rec := rec.(doc := rec.doc + (body - {"_rev"}));
      rec := rec.(revision := rec.revision + 1);
      rec := rec.(rev := RevOf(md5, JText(id), rec.revision));
      documents := documents[JText(id) := rec];
      r := NowAt(rec.rev);
    }

    method Delete(id: string)
      modifies this
      ensures documents == old(documents) - {JText(id)}
    {
      documents := documents - {JText(id)};
    }
  }

  /** All regions' documents. */
  type World = map<string, Docs>

  /** `headers.get("X-Hpdc-Region") or "default"` */
  function RegionOf(header: Option<string>): string {
    if header.Some? && header.value != "" then header.value else "default"
  }

  function DocsAt(world: World, region: string): Docs {
    if region in world then world[region] else map[]
  }

  function With(world: World, region: string, docs: Docs): World {
    world[region := docs]
  }

  /** A request that is refused before a store is looked up. */
  predicate Refused(op: Op) {
    match op
    case Post(_, doc) => doc.None? || "id" !in doc.value
    case Put(_, _, body) => body.None?
    case Remove(_, _) => false
  }

  /** One request: its region's store is made if need be, and changed; nothing else is. */
  function WorldStep(md5: string -> string, world: World, header: Option<string>, op: Op): (World, Reply) {
    if Refused(op) then (world, BadRequest)
    else
      var region := RegionOf(header);
      var next := Step(md5, DocsAt(world, region), op);
      (With(world, region, next.0), next.1)
  }

  /** `EntityServer` with its handlers. */
  class EntityServer {
    var stores: map<string, EntityStore>
    const md5: string -> string

    /** Different regions never share a store. */
    ghost predicate Valid()
      reads this
    {
      forall a, b | a in stores && b in stores && a != b :: stores[a] != stores[b]
    }

    ghost function Contents(): World
      reads this, stores.Values
    {
      map region | region in stores :: stores[region].documents
    }

    constructor (md5: string -> string)
      ensures Valid() && Contents() == map[] && this.md5 == md5
    {
      stores := map[];
      this.md5 := md5;
    }

    /** When only one region's store has changed, so has only that region of the contents. */
    twostate lemma OneStoreChanged(region: string)
      requires stores == old(stores) && region in stores
      requires forall other | other in stores && other != region :: stores[other].documents == old(stores[other].documents)
      ensures Contents() == With(old(Contents()), region, stores[region].documents)
    {
    }

    /** `_store` */
    method StoreFor(header: Option<string>) returns (store: EntityStore)
      requires Valid()
      modifies this
      ensures Valid() && RegionOf(header) in stores && store == stores[RegionOf(header)]
      ensures RegionOf(header) in old(stores) ==> stores == old(stores)
      ensures RegionOf(header) !in old(stores) ==>
                fresh(store) && store.documents == map[] && stores == old(stores)[RegionOf(header) := store]
      ensures forall docs :: With(Contents(), RegionOf(header), docs) == With(old(Contents()), RegionOf(header), docs)
      ensures RegionOf(header) in Contents() && Contents()[RegionOf(header)] == store.documents
      ensures store.documents == DocsAt(old(Contents()), RegionOf(header))
    {
      var region := RegionOf(header);
      if region !in stores {
        var made := new EntityStore();
        stores := stores[region := made];
      }
      store := stores[region];
    }

    method HandleCreate(header: Option<string>, tenant: Option<string>, doc: Option<Object>) returns (r: Reply)
      requires Valid()
      modifies this, stores.Values
      ensures Valid()
      ensures (Contents(), r) == WorldStep(md5, old(Contents()), header, Post(tenant, doc))
    {
      hide RevOf, CreateDoc, RegionOf, Get;
      if doc.None? || "id" !in doc.value {
        return BadRequest;
      }
      var store := StoreFor(header);
      label found:
      r := store.Create(md5, doc.value, tenant);
      OneStoreChanged@found(RegionOf(header));
    }

    method HandleUpdate(header: Option<string>, tenant: Option<string>, id: string, body: Option<Object>) returns (r: Reply)
      requires Valid()
      modifies this, stores.Values
      ensures Valid()
      ensures (Contents(), r) == WorldStep(md5, old(Contents()), header, Put(tenant, id, body))
    {
      hide RevOf, Merged, CanAccess, RegionOf, Get;
      if body.None? {
        return BadRequest;
      }
      var store := StoreFor(header);
      label found:
      OneStoreChanged@found(RegionOf(header));
      if JText(id) !in store.documents || !CanAccess(store.documents[JText(id)], tenant) {
        return NotFound;
      }
      var revision := Get(body.value, "_rev");
      if revision == JNull {
        var rec := Merged(md5, store.documents[JText(id)], id, body.value);
        store.documents := store.documents[JText(id) := rec];
        OneStoreChanged@found(RegionOf(header));
        return Updated(id, rec.rev);
      }
      var outcome := store.Update(md5, id, body.value, revision);
      OneStoreChanged@found(RegionOf(header));
      r := match outcome
           case NowAt(rev) => Updated(id, rev)
           case Stale => Conflict
           case NoDocument => NotFound;
    }

    method HandleDelete(header: Option<string>, tenant: Option<string>, id: string) returns (r: Reply)
      requires Valid()
      modifies this, stores.Values
      ensures Valid()
      ensures (Contents(), r) == WorldStep(md5, old(Contents()), header, Remove(tenant, id))
    {
      var store := StoreFor(header);
      label found:
      OneStoreChanged@found(RegionOf(header));
      if JText(id) !in store.documents || !CanAccess(store.documents[JText(id)], tenant) {
        return NotFound;
      }
      store.Delete(id);
      OneStoreChanged@found(RegionOf(header));
      r := Deleted(id);
    }
  }

  /** A request for one region leaves every other region's documents alone. */
  lemma RegionsAreIsolated(md5: string -> string, world: World, header: Option<string>, op: Op, region: string)
    requires header.Some? && header.value != "" ==> region != header.value
    requires header == None || header == Some("") ==> region != "default"
    ensures var next := WorldStep(md5, world, header, op).0;
            && (region in next <==> region in world)
            && (region in world ==> next[region] == world[region])
  {
  }

  /** The region a request names, or "default", answers as a store on its own does. */
  lemma OwnRegionAnswers(md5: string -> string, world: World, header: Option<string>, op: Op, region: string)
    requires header.Some? && header.value != "" ==> region == header.value
    requires header == None || header == Some("") ==> region == "default"
    ensures var (next, reply) := WorldStep(md5, world, header, op);
            var alone := Step(md5, if region in world then world[region] else map[], op);
            && reply == alone.1
            && (if region in next then next[region] else map[]) == alone.0
  {
  }

  // ---- optimistic locking over runs ----

  /** The revision string of every document is that of its revision number. */
  predicate Valid(md5: string -> string, docs: Docs) {
    forall id | id in docs :: docs[id].rev == RevOf(md5, id, docs[id].revision)
  }

  function Run(md5: string -> string, docs: Docs, ops: seq<Op>): Docs {
    if ops == [] then docs else Step(md5, Run(md5, docs, ops[..|ops| - 1]), ops[|ops| - 1]).0
  }

  function ReplyTo(md5: string -> string, docs: Docs, ops: seq<Op>, i: nat): Reply
    requires i < |ops|
  {
    Step(md5, Run(md5, docs, ops[..i]), ops[i]).1
  }

  lemma RunOne(md5: string -> string, docs: Docs, ops: seq<Op>, i: nat)
    requires i < |ops|
    ensures Run(md5, docs, ops[..i + 1]) == Step(md5, Run(md5, docs, ops[..i]), ops[i]).0
  {
    assert ops[..i + 1][..i] == ops[..i];
  }

  lemma {:induction false} RunKeepsValid(md5: string -> string, docs: Docs, ops: seq<Op>)
    requires Valid(md5, docs)
    ensures Valid(md5, Run(md5, docs, ops))
  {
    if ops != [] {
      RunKeepsValid(md5, docs, ops[..|ops| - 1]);
    }
  }

  /** The revision string in the latest reply to a successful write of a document, since it was
      last deleted. */
  function LastWritten(md5: string -> string, ops: seq<Op>, id: string, i: nat): Option<string>
    requires i <= |ops|
  {
    if i == 0 then None
    else
      match ReplyTo(md5, map[], ops, i - 1)
      case Created(written, rev) => if written == JText(id) then Some(rev) else LastWritten(md5, ops, id, i - 1)
      case Updated(written, rev) => if written == id then Some(rev) else LastWritten(md5, ops, id, i - 1)
      case Deleted(gone) => if gone == id then None else LastWritten(md5, ops, id, i - 1)
      case _ => LastWritten(md5, ops, id, i - 1)
  }

  lemma {:induction false} StoreHoldsLastWritten(md5: string -> string, ops: seq<Op>, id: string, i: nat)
    requires i <= |ops|
    ensures LastWritten(md5, ops, id, i)
         == (var docs := Run(md5, map[], ops[..i]); if JText(id) in docs then Some(docs[JText(id)].rev) else None)
  {
    hide RevOf, CanAccess;
    if i > 0 {
      StoreHoldsLastWritten(md5, ops, id, i - 1);
      RunOne(md5, map[], ops, i - 1);
    } else {
      assert ops[..0] == [];
    }
  }

  /** A revisioned update succeeds exactly when its `_rev` is the one returned by the latest
      successful write of the document, and its sender may see the document. */
  lemma UpdateSucceedsIff(md5: string -> string, ops: seq<Op>, i: nat)
    requires i < |ops| && ops[i].Put? && ops[i].body.Some? && Get(ops[i].body.value, "_rev") != JNull
    ensures var id, docs := ops[i].id, Run(md5, map[], ops[..i]);
            var last := LastWritten(md5, ops, id, i);
            ReplyTo(md5, map[], ops, i).Updated? <==>
              last.Some? && Get(ops[i].body.value, "_rev") == JText(last.value)
              && JText(id) in docs && CanAccess(docs[JText(id)], ops[i].tenant)
  {
    hide RevOf, CanAccess, Run;
    StoreHoldsLastWritten(md5, ops, ops[i].id, i);
  }

  function FieldOf(docs: Docs, id: string, f: string): Option<Json> {
    if JText(id) in docs && f in docs[JText(id)].doc then Some(docs[JText(id)].doc[f]) else None
  }

  /** What the latest successful write that mentions a field of a document gave it, since the
      document was last created; an update does not mention `_rev`. */
  function LastGiven(md5: string -> string, ops: seq<Op>, id: string, f: string, i: nat): Option<Json>
    requires i <= |ops|
  {
    if i == 0 then None
    else
      var before, reply := LastGiven(md5, ops, id, f, i - 1), ReplyTo(md5, map[], ops, i - 1);
      match ops[i - 1]
      case Post(_, doc) =>
        if !reply.Created? || reply.docId != JText(id) || doc.None? then before
        else if f in doc.value then Some(doc.value[f])
        else None
      case Put(_, to, body) =>
        if reply.Updated? && to == id && body.Some? && f in body.value && f != "_rev" then Some(body.value[f])
        else before
      case Remove(_, gone) => if reply.Deleted? && gone == id then None else before
  }

  lemma StepGives(md5: string -> string, docs: Docs, op: Op, id: string, f: string)
    ensures var (next, reply) := Step(md5, docs, op);
            FieldOf(next, id, f) ==
            match op
            case Post(_, doc) =>
              if !reply.Created? || reply.docId != JText(id) || doc.None? then FieldOf(docs, id, f)
              else if f in doc.value then Some(doc.value[f])
              else None
            case Put(_, to, body) =>
              if reply.Updated? && to == id && body.Some? && f in body.value && f != "_rev" then Some(body.value[f])
              else FieldOf(docs, id, f)
            case Remove(_, gone) => if reply.Deleted? && gone == id then None else FieldOf(docs, id, f)
  {
    hide RevOf, CanAccess;
  }

  lemma NoField(id: string, f: string)
    ensures FieldOf(map[], id, f) == None
  {
  }

  /** Over any run a field of a document holds what the latest successful write that mentions it
      gave it, and is absent if there is none since the document was last created. */
  lemma {:induction false} FieldsHoldLastGiven(md5: string -> string, ops: seq<Op>, id: string, f: string, i: nat)
    requires i <= |ops|
    ensures FieldOf(Run(md5, map[], ops[..i]), id, f) == LastGiven(md5, ops, id, f, i)
  {
    hide RevOf, CanAccess, Step, FieldOf;
    if i == 0 {
      NothingStored(md5, ops);
      NoField(id, f);
    } else {
      FieldsHoldLastGiven(md5, ops, id, f, i - 1);
      RunOne(md5, map[], ops, i - 1);
      StepGives(md5, Run(md5, map[], ops[..i - 1]), ops[i - 1], id, f);
    }
  }

  /** The reply makes a new incarnation of the document, or ends one. */
  predicate Renews(r: Reply, id: string) {
    r == Deleted(id) || (r.Created? && r.docId == JText(id))
  }

  /** Within one incarnation the revision number never goes down. */
  lemma {:induction false} RevisionsGrow(md5: string -> string, docs: Docs, ops: seq<Op>, id: string, i: nat, j: nat)
    requires i <= j <= |ops| && JText(id) in Run(md5, docs, ops[..i])
    requires forall k | i <= k < j :: !Renews(ReplyTo(md5, docs, ops, k), id)
    ensures JText(id) in Run(md5, docs, ops[..j])
    ensures Run(md5, docs, ops[..i])[JText(id)].revision <= Run(md5, docs, ops[..j])[JText(id)].revision
    decreases j
  {
    hide RevOf, CanAccess, Run;
    if i < j {
      RevisionsGrow(md5, docs, ops, id, i, j - 1);
      RunOne(md5, docs, ops, j - 1);
      assert !Renews(ReplyTo(md5, docs, ops, j - 1), id);
    }
  }

  /** Successful updates of a document since it was last created. */
  function UpdatesSince(md5: string -> string, ops: seq<Op>, id: string, i: nat): nat
    requires i <= |ops|
  {
    if i == 0 then 0
    else
      match ReplyTo(md5, map[], ops, i - 1)
      case Created(written, _) => if written == JText(id) then 0 else UpdatesSince(md5, ops, id, i - 1)
      case Updated(written, _) => UpdatesSince(md5, ops, id, i - 1) + if written == id then 1 else 0
      case _ => UpdatesSince(md5, ops, id, i - 1)
  }

  /** What one request does to the record of a document that is there afterwards. */
  lemma StepCounts(md5: string -> string, docs: Docs, op: Op, id: string)
    requires JText(id) in Step(md5, docs, op).0
    ensures var (next, reply) := Step(md5, docs, op);
            if reply.Created? && reply.docId == JText(id) then next[JText(id)].revision == 1
            else JText(id) in docs && next[JText(id)].revision == docs[JText(id)].revision
                 + (if reply.Updated? && reply.id == id then 1 else 0)
  {
    hide RevOf, CanAccess;
  }

  /** Over any run the revision of a document is one more than its successful updates since it
      was last created, and its revision string says just that. */
  lemma {:induction false} RevisionCounts(md5: string -> string, ops: seq<Op>, id: string, i: nat)
    requires i <= |ops| && JText(id) in Run(md5, map[], ops[..i])
    ensures var rec := Run(md5, map[], ops[..i])[JText(id)];
            rec.revision == 1 + UpdatesSince(md5, ops, id, i) && rec.rev == RevOf(md5, JText(id), rec.revision)
  {
    hide RevOf, CanAccess, Run, Step;
    RunKeepsValid(md5, map[], ops[..i]);
    assert i > 0 by { NothingStored(md5, ops); }
    RunOne(md5, map[], ops, i - 1);
    StepCounts(md5, Run(md5, map[], ops[..i - 1]), ops[i - 1], id);
    if JText(id) in Run(md5, map[], ops[..i - 1]) {
      RevisionCounts(md5, ops, id, i - 1);
    }
  }

  lemma NothingStored(md5: string -> string, ops: seq<Op>)
    ensures Run(md5, map[], ops[..0]) == map[]
  {
    assert ops[..0] == [];
  }

  /** At two moments of a run a document has the same revision string if and only if it has had
      as many successful updates since its last creation: within one incarnation no string comes
      back, and after a new creation each does as soon as there are as many updates again. */
  lemma SameRevIff(md5: string -> string, ops: seq<Op>, id: string, i: nat, j: nat)
    requires i <= |ops| && JText(id) in Run(md5, map[], ops[..i])
    requires j <= |ops| && JText(id) in Run(md5, map[], ops[..j])
    ensures Run(md5, map[], ops[..i])[JText(id)].rev == Run(md5, map[], ops[..j])[JText(id)].rev
       <==> UpdatesSince(md5, ops, id, i) == UpdatesSince(md5, ops, id, j)
  {
    hide RevOf, Run, UpdatesSince;
    RevisionCounts(md5, ops, id, i);
    RevisionCounts(md5, ops, id, j);
    var r, t := Run(md5, map[], ops[..i])[JText(id)], Run(md5, map[], ops[..j])[JText(id)];
    if r.rev == t.rev {
      RevTellsRevision(md5, JText(id), r.revision, JText(id), t.revision);
    }
  }

  /** An update that carries the string of revision `n` succeeds, in whatever incarnation, if and
      only if the document is there for its sender and has had `n - 1` updates since its creation. */
  lemma RevWinsIff(md5: string -> string, ops: seq<Op>, i: nat, n: nat)
    requires i < |ops| && ops[i].Put? && ops[i].body.Some?
    requires Get(ops[i].body.value, "_rev") == JText(RevOf(md5, JText(ops[i].id), n))
    ensures var id, docs := JText(ops[i].id), Run(md5, map[], ops[..i]);
            ReplyTo(md5, map[], ops, i).Updated? <==>
              id in docs && CanAccess(docs[id], ops[i].tenant) && n == 1 + UpdatesSince(md5, ops, ops[i].id, i)
  {
    hide RevOf, Run, UpdatesSince, CanAccess;
    var id, docs := JText(ops[i].id), Run(md5, map[], ops[..i]);
    if id in docs {
      RevisionCounts(md5, ops, ops[i].id, i);
      if docs[id].rev == RevOf(md5, id, n) {
        RevTellsRevision(md5, id, docs[id].revision, id, n);
      }
    }
  }

  /** Of the writers that hold the same `_rev` at most one succeeds in one incarnation. */
  lemma AtMostOneWinner(md5: string -> string, docs: Docs, ops: seq<Op>, i: nat, j: nat)
    requires Valid(md5, docs) && i < j < |ops|
    requires ops[i].Put? && ops[j].Put? && ops[i].id == ops[j].id && ops[i].body.Some? && ops[j].body.Some?
    requires Get(ops[i].body.value, "_rev") == Get(ops[j].body.value, "_rev") != JNull
    requires forall k | i < k < j :: !Renews(ReplyTo(md5, docs, ops, k), ops[i].id)
    requires ReplyTo(md5, docs, ops, i).Updated?
    ensures !ReplyTo(md5, docs, ops, j).Updated?
  {
    hide RevOf, CanAccess, Run;
    var id := JText(ops[i].id);
    var before, later := Run(md5, docs, ops[..i]), Run(md5, docs, ops[..j]);
    RunOne(md5, docs, ops, i);
    RunKeepsValid(md5, docs, ops[..i]);
    RunKeepsValid(md5, docs, ops[..j]);
    RevisionsGrow(md5, docs, ops, ops[i].id, i + 1, j);
    assert later[id].revision > before[id].revision;
    if later[id].rev == before[id].rev {
      RevTellsRevision(md5, id, before[id].revision, id, later[id].revision);
    }
  }

  /** Across incarnations the same `_rev` may win again: a create resets the revision to 1. */
  lemma SameRevWinsAfterRecreation(md5: string -> string, id: string, v: Json)
    ensures var first := RevOf(md5, JText(id), 1);
            var make := Post(None, Some(map["id" := JText(id)]));
            var change := Put(None, id, Some(map["x" := v, "_rev" := JText(first)]));
            var ops := [make, change, make, change];
            ReplyTo(md5, map[], ops, 1).Updated? && ReplyTo(md5, map[], ops, 3).Updated?
  {
    hide RevOf;
    var first := RevOf(md5, JText(id), 1);
    var make := Post(None, Some(map["id" := JText(id)]));
    var change := Put(None, id, Some(map["x" := v, "_rev" := JText(first)]));
    var ops := [make, change, make, change];
    RunOne(md5, map[], ops, 0);
    RunOne(md5, map[], ops, 1);
    RunOne(md5, map[], ops, 2);
  }
}

