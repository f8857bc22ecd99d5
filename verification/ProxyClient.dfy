/** The entities of the centralized middleware (src/cpp/middleware/ced/CedMiddleware.cpp): six maps from 12-bit raw
    ids. */
module CedMiddlewares {

  import opened Conversions

  const OBJK_PARTICIPANT := 0x01
  const OBJK_TOPIC := 0x02
  const OBJK_PUBLISHER := 0x03
  const OBJK_SUBSCRIBER := 0x04
  const OBJK_DATAWRITER := 0x05
  const OBJK_DATAREADER := 0x06
  const OBJK_REQUESTER := 0x07
  const OBJK_REPLIER := 0x08

  datatype Format = ByReference | AsXml | InBinary | UnknownFormat

  /** How a data writer or reader names its topic. */
  datatype TopicChoice = Named(ref: string) | ById(topic: ObjectId) | NoTopic

  /** The representation of an object in a CREATE submessage. */
  datatype Representation =
    | Participant(domain: int, format: Format)
    | Topic(participant: ObjectId, format: Format, ref: string)
    | Publisher(participant: ObjectId, format: Format)
    | Subscriber(participant: ObjectId, format: Format)
    | DataWriter(publisher: ObjectId, choice: TopicChoice)
    | DataReader(subscriber: ObjectId, choice: TopicChoice)
    | Requester(participant: ObjectId)
    | Replier(participant: ObjectId)
    | Unsupported(kind: nat)
  {
    predicate Wellformed() {
      Unsupported? ==> 9 <= kind < 16 || kind == 0
    }

    function Kind(): (k: nat)
      requires Wellformed()
      ensures k < 16
    {
      match this
      case Participant(_, _) => OBJK_PARTICIPANT
      case Topic(_, _, _) => OBJK_TOPIC
      case Publisher(_, _) => OBJK_PUBLISHER
      case Subscriber(_, _) => OBJK_SUBSCRIBER
      case DataWriter(_, _) => OBJK_DATAWRITER
      case DataReader(_, _) => OBJK_DATAREADER
      case Requester(_) => OBJK_REQUESTER
      case Replier(_) => OBJK_REPLIER
      case Unsupported(k) => k
    }
  }

  /** A participant object; deleting and re-creating a raw id makes another `instance`. */
  datatype ParticipantRef = ParticipantRef(instance: nat, domain: int)

  /** A `CedTopic`: there is one per participant object and name, shared by whoever refers to it. */
  datatype TopicRef = TopicRef(instance: nat, name: string)

  datatype Ced = Ced(
    participants: map<nat, ParticipantRef>,
    topics: map<nat, TopicRef>,
    publishers: map<nat, nat>,
    subscribers: map<nat, nat>,
    datawriters: map<nat, TopicRef>,
    datareaders: map<nat, TopicRef>,
    nextInstance: nat)
  {
    function Ids(kind: nat): set<nat> {
      match kind
      case 1 => participants.Keys
      case 2 => topics.Keys
      case 3 => publishers.Keys
      case 4 => subscribers.Keys
      case 5 => datawriters.Keys
      case 6 => datareaders.Keys
      case _ => {}
    }

    /** `find_topic`: the registered weak reference is alive while a topic, writer or reader holds the topic. */
    predicate Finds(t: TopicRef) {
      t in topics.Values || t in datawriters.Values || t in datareaders.Values
    }
  }

  predicate StartsAt(s: string, pattern: string, i: nat) {
    i + |pattern| <= |s| && s[i..i + |pattern|] == pattern
  }

  /** `ref.substr(0, ref.find(pattern))`, searching from `i`. */
  function CutFrom(s: string, pattern: string, i: nat): string
    requires i <= |s|
    decreases |s| - i
  {
    if StartsAt(s, pattern, i) then s[..i] else if i == |s| then s else CutFrom(s, pattern, i + 1)
  }

  function RemoveSuffix(s: string, pattern: string): string {
    CutFrom(s, pattern, 0)
  }

  /** The part of `s` before the first occurrence of the pattern, or all of `s`. */
  lemma {:induction false} CutAtFirstOccurrence(s: string, pattern: string, i: nat)
    requires i <= |s| && forall k :: 0 <= k < i ==> !StartsAt(s, pattern, k)
    ensures var r := CutFrom(s, pattern, i);
            && r <= s
            && (forall k :: 0 <= k < |r| ==> !StartsAt(s, pattern, k))
            && (StartsAt(s, pattern, |r|) || r == s)
    decreases |s| - i
  {
    if !StartsAt(s, pattern, i) && i < |s| {
      CutAtFirstOccurrence(s, pattern, i + 1);
    }
  }

  datatype Outcome = Made(ced: Ced) | Failed

  function MakeWriter(c: Ced, raw: nat, publisher: nat, ref: string): Outcome {
    if publisher in c.publishers && raw !in c.datawriters then
      var t := TopicRef(c.publishers[publisher], RemoveSuffix(ref, "__dw"));
      if c.Finds(t) then Made(c.(datawriters := c.datawriters[raw := t])) else Failed
    else Failed
  }

  function MakeReader(c: Ced, raw: nat, subscriber: nat, ref: string): Outcome {
    if subscriber in c.subscribers && raw !in c.datareaders then
      var t := TopicRef(c.subscribers[subscriber], RemoveSuffix(ref, "__dr"));
      if c.Finds(t) then Made(c.(datareaders := c.datareaders[raw := t])) else Failed
    else Failed
  }

  /** The `create_*` functions, by kind and format of the representation. */
  function Make(c: Ced, raw: nat, rep: Representation): Outcome {
    match rep
    case Participant(domain, format) =>
      if format.UnknownFormat? || raw in c.participants then Failed
      else Made(c.(participants := c.participants[raw := ParticipantRef(c.nextInstance, domain)],
                   nextInstance := c.nextInstance + 1))
    case Topic(participant, format, ref) =>
      var p := ObjectIdToRaw(participant);
      if format.UnknownFormat? || p !in c.participants || raw in c.topics then Failed
      else Made(c.(topics := c.topics[raw := TopicRef(c.participants[p].instance, RemoveSuffix(ref, "__t"))]))
    case Publisher(participant, format) =>
      var p := ObjectIdToRaw(participant);
      if !(format.AsXml? || format.InBinary?) || p !in c.participants || raw in c.publishers then Failed
      else Made(c.(publishers := c.publishers[raw := c.participants[p].instance]))
    case Subscriber(participant, format) =>
      var p := ObjectIdToRaw(participant);
      if !(format.AsXml? || format.InBinary?) || p !in c.participants || raw in c.subscribers then Failed
      else Made(c.(subscribers := c.subscribers[raw := c.participants[p].instance]))
    case DataWriter(publisher, choice) =>
      (match choice
       case Named(ref) => MakeWriter(c, raw, ObjectIdToRaw(publisher), ref)
       case ById(topic) =>
         var t := ObjectIdToRaw(topic);
         if t in c.topics then MakeWriter(c, raw, ObjectIdToRaw(publisher), c.topics[t].name) else Failed
       case NoTopic => Failed)
    case DataReader(subscriber, choice) =>
      (match choice
       case Named(ref) => MakeReader(c, raw, ObjectIdToRaw(subscriber), ref)
       case ById(topic) =>
         var t := ObjectIdToRaw(topic);
         if t in c.topics then MakeReader(c, raw, ObjectIdToRaw(subscriber), c.topics[t].name) else Failed
       case NoTopic => Failed)
    case _ => Failed
  }

  /** The `delete_*` function of a kind. */
  function Erase(c: Ced, kind: nat, raw: nat): Ced {
    match kind
    case 1 => c.(participants := c.participants - {raw})
    case 2 => c.(topics := c.topics - {raw})
    case 3 => c.(publishers := c.publishers - {raw})
    case 4 => c.(subscribers := c.subscribers - {raw})
    case 5 => c.(datawriters := c.datawriters - {raw})
    case 6 => c.(datareaders := c.datareaders - {raw})
    case _ => c
  }

  /** The `matched_*` functions; publishers and subscribers match anything. */
  predicate Matched(c: Ced, raw: nat, rep: Representation) {
    match rep
    case Participant(domain, format) =>
      !format.UnknownFormat? && raw in c.participants && c.participants[raw].domain == domain
    case Topic(_, format, ref) =>
      !format.UnknownFormat? && raw in c.topics && c.topics[raw].name == RemoveSuffix(ref, "__t")
    case Publisher(_, _) => true
    case Subscriber(_, _) => true
    case DataWriter(_, choice) =>
      (match choice
       case Named(ref) => raw in c.datawriters && c.datawriters[raw].name == RemoveSuffix(ref, "__dw")
       case ById(topic) =>
         var t := ObjectIdToRaw(topic);
         t in c.topics && raw in c.datawriters && c.datawriters[raw].name == RemoveSuffix(c.topics[t].name, "__dw")
       case NoTopic => false)
    case DataReader(_, choice) =>
      (match choice
       case Named(ref) => raw in c.datareaders && c.datareaders[raw].name == RemoveSuffix(ref, "__dr")
       case ById(topic) =>
         var t := ObjectIdToRaw(topic);
         t in c.topics && raw in c.datareaders && c.datareaders[raw].name == RemoveSuffix(c.topics[t].name, "__dr")
       case NoTopic => false)
    case _ => false
  }

  /** A successful creation adds exactly one raw id, to the map of its kind. */
  lemma MakeAddsOneId(c: Ced, raw: nat, rep: Representation, kind: nat)
    requires rep.Wellformed() && Make(c, raw, rep).Made?
    ensures 1 <= rep.Kind() <= 6
    ensures Make(c, raw, rep).ced.Ids(kind) == if kind == rep.Kind() then c.Ids(kind) + {raw} else c.Ids(kind)
    ensures raw !in c.Ids(rep.Kind())
  {
    hide RemoveSuffix, ObjectIdToRaw, Ced.Finds;
    match rep
    case Participant(_, _) =>
    case Topic(_, _, _) =>
    case Publisher(_, _) =>
    case Subscriber(_, _) =>
    case DataWriter(_, _) =>
    case DataReader(_, _) =>
  }

  lemma EraseRemovesOneId(c: Ced, kind: nat, raw: nat, other: nat)
    ensures Erase(c, kind, raw).Ids(other) == if other == kind then c.Ids(other) - {raw} else c.Ids(other)
  {
    hide Erase, Ced.Ids;
    if other == kind {
      EraseRemovesItsId(c, kind, raw);
    } else {
      EraseKeepsOtherIds(c, kind, raw, other);
    }
  }

  lemma EraseRemovesItsId(c: Ced, kind: nat, raw: nat)
    ensures Erase(c, kind, raw).Ids(kind) == c.Ids(kind) - {raw}
  {
  }

  lemma EraseKeepsOtherIds(c: Ced, kind: nat, raw: nat, other: nat)
    requires other != kind
    ensures Erase(c, kind, raw).Ids(other) == c.Ids(other)
  {
    match kind
    case 1 =>
    case 2 =>
    case 3 =>
    case 4 =>
    case 5 =>
    case 6 =>
    case _ =>
  }
}

/** The object table of a client (src/cpp/client/ProxyClient.cpp) over the centralized middleware. */
module ProxyClients {

  import opened Options
  import opened Conversions
  import opened CedMiddlewares

  datatype Status =
    | StatusOk | StatusOkMatched | ErrDdsError | ErrMismatch | ErrAlreadyExists | ErrUnknownReference

  datatype CreationMode = CreationMode(reuse: bool, replace: bool)

  datatype Table = Table(objects: set<ObjectId>, ced: Ced)
  {
    /** An object id of a supported kind is in the table exactly when the middleware has its raw id. */
    ghost predicate Agrees() {
      && (forall id :: id in objects <==> ObjectIdToRaw(id) in ced.Ids(KindOf(id)))
      && (forall kind, raw :: raw in ced.Ids(kind) ==> raw < 0x1000)
    }
  }

  function Removed(t: Table, id: ObjectId): Table {
    if id in t.objects then Table(t.objects - {id}, Erase(t.ced, KindOf(id), ObjectIdToRaw(id))) else t
  }

  /** The object that must exist before one of this kind can be made. */
  function ParentOf(rep: Representation): set<ObjectId> {
    match rep
    case Topic(p, _, _) => {WithKind(p, OBJK_PARTICIPANT)}
    case Publisher(p, _) => {WithKind(p, OBJK_PARTICIPANT)}
    case Subscriber(p, _) => {WithKind(p, OBJK_PARTICIPANT)}
    case DataWriter(p, _) => {WithKind(p, OBJK_PUBLISHER)}
    case DataReader(p, _) => {WithKind(p, OBJK_SUBSCRIBER)}
    case Requester(p) => {WithKind(p, OBJK_PARTICIPANT)}
    case Replier(p) => {WithKind(p, OBJK_PARTICIPANT)}
    case _ => {}
  }

  /** The private `create_object`: parent, middleware entity, table entry.  Kinds without a creator keep the status
      OK. */
  function Attempt(t: Table, id: ObjectId, rep: Representation): (Status, Table) {
    if rep.Unsupported? then (StatusOk, t)
    else if !(ParentOf(rep) <= t.objects) then (ErrUnknownReference, t)
    else
      match Make(t.ced, ObjectIdToRaw(id), rep)
      case Made(ced) => (StatusOk, Table(t.objects + {id}, ced))
      case Failed => (ErrDdsError, t)
  }

  /** Table 7 of the DDS-XRCE specification: what a creation mode does to a missing, a matching and a different
      object. */
  function Creation(t: Table, mode: CreationMode, prefix: ObjectId, rep: Representation): (Status, Table)
    requires rep.Wellformed()
  {
    var id := WithKind(prefix, rep.Kind());
    if id !in t.objects then Attempt(t, id, rep)
    else if mode.reuse && Matched(t.ced, ObjectIdToRaw(id), rep) then (StatusOkMatched, t)
    else if mode.replace then Attempt(Removed(t, id), id, rep)
    else (if mode.reuse then ErrMismatch else ErrAlreadyExists, t)
  }

  /** Clearing the table empties the middleware; instances go on being numbered. */
  function Released(t: Table): Table {
    Table({}, Ced(map[], map[], map[], map[], map[], map[], t.ced.nextInstance))
  }

  class ProxyClient {
    var objects: set<ObjectId>
    var ced: Ced

    ghost function View(): Table
      reads this
    {
      Table(objects, ced)
    }

    constructor ()
      ensures View() == Table({}, Ced(map[], map[], map[], map[], map[], map[], 0)) && View().Agrees()
    {
      objects, ced := {}, Ced(map[], map[], map[], map[], map[], map[], 0);
    }

    method TryCreate(id: ObjectId, rep: Representation) returns (status: Status)
      modifies this
      ensures (status, View()) == Attempt(old(View()), id, rep)
    {
      status := StatusOk;
      if rep.Unsupported? {
      } else if ParentOf(rep) <= objects {
        var outcome := Make(ced, ObjectIdToRaw(id), rep);
        if outcome.Made? {
          ced := outcome.ced;
          objects := objects + {id};
        } else {
          status := ErrDdsError;
        }
      } else {
        status := ErrUnknownReference;
      }
    }

    /** Erasing the table entry runs the object's destructor, which deletes the middleware entity. */
    method DeleteObjectUnlock(id: ObjectId) returns (rv: bool)
      modifies this
      ensures rv == (id in old(objects)) && View() == Removed(old(View()), id)
    {
      rv := false;
      if id in objects {
        objects := objects - {id};
        ced := Erase(ced, KindOf(id), ObjectIdToRaw(id));
        rv := true;
      }
    }

    /** Creation by mode: the rows of Table 7 of the DDS-XRCE specification. */
    method CreateObject(mode: CreationMode, prefix: ObjectId, rep: Representation) returns (status: Status)
      requires rep.Wellformed() && View().Agrees()
      modifies this
      ensures View().Agrees()
      ensures (status, View()) == Creation(old(View()), mode, prefix, rep)
      ensures WithKind(prefix, rep.Kind()) in old(objects) ==>
                && (status.ErrAlreadyExists? <==> !mode.reuse && !mode.replace)
                && (status.ErrMismatch? <==> mode.reuse && !mode.replace && !IsTheOne(old(ced), prefix, rep))
                && (status.StatusOkMatched? <==> mode.reuse && IsTheOne(old(ced), prefix, rep))
    {
      var id := WithKind(prefix, rep.Kind());
      if id in objects {
        TableSeven(View(), mode, prefix, rep);
      }
      CreationKeepsAgreement(View(), mode, prefix, rep);
      if id !in objects {
        status := TryCreate(id, rep);
      } else if !mode.reuse {
        if !mode.replace {
          status := ErrAlreadyExists;
        } else {
          var _ := DeleteObjectUnlock(id);
          status := TryCreate(id, rep);
        }
      } else {
        if !mode.replace {
          status := if Matched(ced, ObjectIdToRaw(id), rep) then StatusOkMatched else ErrMismatch;
        } else if Matched(ced, ObjectIdToRaw(id), rep) {
          status := StatusOkMatched;
        } else {
          var _ := DeleteObjectUnlock(id);
          status := TryCreate(id, rep);
        }
      }
    }

    method DeleteObject(id: ObjectId) returns (status: Status)
      requires View().Agrees()
      modifies this
      ensures View() == Removed(old(View()), id) && View().Agrees()
      ensures status == if id in old(objects) then StatusOk else ErrUnknownReference
    {
      RemovalKeepsAgreement(View(), id);
      var found := DeleteObjectUnlock(id);
      status := if found then StatusOk else ErrUnknownReference;
    }

    /** Clearing the table destroys the objects one by one; nothing is left in the middleware either. */
    method Release()
      requires View().Agrees()
      modifies this
      ensures View() == Released(old(View())) && View().Agrees()
    {
      while objects != {}
        invariant View().Agrees() && ced.nextInstance == old(ced.nextInstance)
        decreases objects
      {
        var id :| id in objects;
        RemovalKeepsAgreement(View(), id);
        var _ := DeleteObjectUnlock(id);
      }
      EmptyTableEmptyMiddleware(View());
      NoIdsNoEntities(ced);
    }
  }

  lemma NoIdsNoEntities(c: Ced)
    requires forall kind :: c.Ids(kind) == {}
    ensures c == Ced(map[], map[], map[], map[], map[], map[], c.nextInstance)
  {
    assert c.Ids(1) == c.Ids(2) == c.Ids(3) == c.Ids(4) == c.Ids(5) == c.Ids(6) == {};
  }

  // ---------- agreement of table and middleware ----------

  lemma RemovalKeepsAgreement(t: Table, id: ObjectId)
    requires t.Agrees()
    ensures Removed(t, id).Agrees()
    ensures id !in Removed(t, id).objects && ObjectIdToRaw(id) !in Removed(t, id).ced.Ids(KindOf(id))
  {
    if id in t.objects {
      var u := Removed(t, id);
      forall other
        ensures other in u.objects <==> ObjectIdToRaw(other) in u.ced.Ids(KindOf(other))
      {
        EraseRemovesOneId(t.ced, KindOf(id), ObjectIdToRaw(id), KindOf(other));
        if ObjectIdToRaw(other) == ObjectIdToRaw(id) && KindOf(other) == KindOf(id) {
          ObjectIdDetermined(other, id);
        }
      }
      forall kind, raw | raw in u.ced.Ids(kind)
        ensures raw < 0x1000
      {
        EraseRemovesOneId(t.ced, KindOf(id), ObjectIdToRaw(id), kind);
      }
    }
  }

  lemma AttemptKeepsAgreement(t: Table, id: ObjectId, rep: Representation)
    requires t.Agrees() && rep.Wellformed() && KindOf(id) == rep.Kind()
    ensures Attempt(t, id, rep).1.Agrees()
  {
    var (status, u) := Attempt(t, id, rep);
    if u != t {
      var raw := ObjectIdToRaw(id);
      forall other
        ensures other in u.objects <==> ObjectIdToRaw(other) in u.ced.Ids(KindOf(other))
      {
        MakeAddsOneId(t.ced, raw, rep, KindOf(other));
        if ObjectIdToRaw(other) == raw && KindOf(other) == KindOf(id) {
          ObjectIdDetermined(other, id);
        }
      }
      forall kind, k | k in u.ced.Ids(kind)
        ensures k < 0x1000
      {
        MakeAddsOneId(t.ced, raw, rep, kind);
      }
    }
  }

  lemma CreationKeepsAgreement(t: Table, mode: CreationMode, prefix: ObjectId, rep: Representation)
    requires t.Agrees() && rep.Wellformed()
    ensures Creation(t, mode, prefix, rep).1.Agrees()
  {
    var id := WithKind(prefix, rep.Kind());
    WithKindHasKind(prefix, rep.Kind());
    if id !in t.objects {
      AttemptKeepsAgreement(t, id, rep);
    } else {
      RemovalKeepsAgreement(t, id);
      AttemptKeepsAgreement(Removed(t, id), id, rep);
    }
  }

  /** Every raw id of the middleware belongs to an object of the table. */
  lemma EveryEntityIsListed(t: Table, kind: nat, raw: nat)
    requires t.Agrees() && raw in t.ced.Ids(kind)
    ensures kind < 16 && raw < 0x1000 && RawToObjectId(raw, kind) in t.objects
  {
    ObjectIdRoundTrip(RawToObjectId(raw, kind), raw, kind);
  }

  lemma EmptyTableEmptyMiddleware(t: Table)
    requires t.Agrees() && t.objects == {}
    ensures forall kind :: t.ced.Ids(kind) == {}
  {
    forall kind
      ensures t.ced.Ids(kind) == {}
    {
      if raw :| raw in t.ced.Ids(kind) {
        EveryEntityIsListed(t, kind, raw);
      }
    }
  }

  /** Deletion never cascades: every other object and every other middleware entity stays, whatever refers to the
      deleted one. */
  lemma DeletionRemovesOneObject(t: Table, id: ObjectId, kind: nat, raw: nat)
    requires t.Agrees() && id in t.objects
    ensures Removed(t, id).objects == t.objects - {id}
    ensures raw in Removed(t, id).ced.Ids(kind) <==>
            raw in t.ced.Ids(kind) && !(kind == KindOf(id) && raw == ObjectIdToRaw(id))
  {
    EraseRemovesOneId(t.ced, KindOf(id), ObjectIdToRaw(id), kind);
  }

  ghost predicate PartOf<V>(m: map<nat, V>, whole: map<nat, V>) {
    forall raw :: raw in m ==> raw in whole && m[raw] == whole[raw]
  }

  /** What is there of the middleware is as it was. */
  ghost predicate Remains(c: Ced, before: Ced) {
    && PartOf(c.participants, before.participants) && PartOf(c.topics, before.topics)
    && PartOf(c.publishers, before.publishers) && PartOf(c.subscribers, before.subscribers)
    && PartOf(c.datawriters, before.datawriters) && PartOf(c.datareaders, before.datareaders)
    && c.nextInstance == before.nextInstance
  }

  lemma WithoutOne<V>(m: map<nat, V>, raw: nat)
    ensures PartOf(m - {raw}, m) && PartOf(m, m)
  {
  }

  lemma ErasedRemains(c: Ced, kind: nat, raw: nat)
    ensures Remains(Erase(c, kind, raw), c)
  {
    hide PartOf;
    WithoutOne(c.participants, raw);
    WithoutOne(c.topics, raw);
    WithoutOne(c.publishers, raw);
    WithoutOne(c.subscribers, raw);
    WithoutOne(c.datawriters, raw);
    WithoutOne(c.datareaders, raw);
    match kind
    case 1 =>
    case 2 =>
    case 3 =>
    case 4 =>
    case 5 =>
    case 6 =>
    case _ =>
  }

  /** Deletion changes no other entity. */
  lemma DeletionChangesNoEntity(t: Table, id: ObjectId)
    ensures Remains(Removed(t, id).ced, t.ced)
  {
    hide Erase;
    ErasedRemains(t.ced, KindOf(id), ObjectIdToRaw(id));
  }

  /** A replacement that fails leaves the id in neither the table nor the middleware, and touches no other object. */
  lemma FailedReplaceLeavesNothing(t: Table, mode: CreationMode, prefix: ObjectId, rep: Representation)
    requires t.Agrees() && rep.Wellformed() && mode.replace
    requires WithKind(prefix, rep.Kind()) in t.objects
    requires Creation(t, mode, prefix, rep).0.ErrDdsError? || Creation(t, mode, prefix, rep).0.ErrUnknownReference?
    ensures var (id, u) := (WithKind(prefix, rep.Kind()), Creation(t, mode, prefix, rep).1);
            && u.objects == t.objects - {id}
            && ObjectIdToRaw(id) !in u.ced.Ids(rep.Kind())
  {
    hide Make, Matched, Erase, Table.Agrees, Ced.Ids;
    WithKindHasKind(prefix, rep.Kind());
    RemovalKeepsAgreement(t, WithKind(prefix, rep.Kind()));
  }

  /** A creation that fails leaves everything as it was if and only if it was not to replace an object that was there.
      */
  lemma FailureKeepsTableIff(t: Table, mode: CreationMode, prefix: ObjectId, rep: Representation)
    requires rep.Wellformed()
    requires !Creation(t, mode, prefix, rep).0.StatusOk? && !Creation(t, mode, prefix, rep).0.StatusOkMatched?
    ensures Creation(t, mode, prefix, rep).1 == t <==> !(WithKind(prefix, rep.Kind()) in t.objects && mode.replace)
  {
    hide Make, Matched, Erase;
  }

  /** Any participant that is replaced with a representation of unknown format is gone, and there is none in its
      place. */
  lemma ReplaceLosesParticipant(prefix: ObjectId)
    ensures var mode := CreationMode(false, true);
            var empty := Table({}, Ced(map[], map[], map[], map[], map[], map[], 0));
            var (status, t) := Creation(empty, mode, prefix, Participant(0, InBinary));
            var (failure, u) := Creation(t, mode, prefix, Participant(0, UnknownFormat));
            && status.StatusOk? && t.objects == {WithKind(prefix, 1)}
            && failure.ErrDdsError? && u.objects == {} && u.ced.participants == map[]
  {
    WithKindHasKind(prefix, 1);
    hide WithKind, ObjectIdToRaw, KindOf;
  }

  // ---------- Table 7, row by row ----------

  /** The name of the topic that a data writer or reader asks for, if it names one. */
  function AskedName(c: Ced, choice: TopicChoice, suffix: string): Option<string> {
    match choice
    case Named(ref) => Some(RemoveSuffix(ref, suffix))
    case ById(topic) =>
      var t := ObjectIdToRaw(topic);
      if t in c.topics then Some(RemoveSuffix(c.topics[t].name, suffix)) else None
    case NoTopic => None
  }

  /** The entity with this id is the one asked for: a participant of the domain, a topic, writer or reader of the
      name.  Nothing tells one publisher or subscriber from another. */
  ghost predicate IsTheOne(c: Ced, prefix: ObjectId, rep: Representation) {
    var raw := ObjectIdToRaw(prefix);
    match rep
    case Participant(domain, format) =>
      !format.UnknownFormat? && exists i :: (raw, ParticipantRef(i, domain)) in c.participants.Items
    case Topic(_, format, ref) =>
      !format.UnknownFormat? && exists i :: (raw, TopicRef(i, RemoveSuffix(ref, "__t"))) in c.topics.Items
    case DataWriter(_, choice) =>
      var name := AskedName(c, choice, "__dw");
      name.Some? && exists i :: (raw, TopicRef(i, name.value)) in c.datawriters.Items
    case DataReader(_, choice) =>
      var name := AskedName(c, choice, "__dr");
      name.Some? && exists i :: (raw, TopicRef(i, name.value)) in c.datareaders.Items
    case Publisher(_, _) => true
    case Subscriber(_, _) => true
    case _ => false
  }

  lemma RawOfKind(prefix: ObjectId, kind: nat)
    requires kind < 16
    ensures ObjectIdToRaw(WithKind(prefix, kind)) == ObjectIdToRaw(prefix)
  {
  }

  lemma MatchedIsTheOne(c: Ced, prefix: ObjectId, rep: Representation)
    ensures Matched(c, ObjectIdToRaw(prefix), rep) <==> IsTheOne(c, prefix, rep)
  {
    hide RemoveSuffix, ObjectIdToRaw;
    var raw := ObjectIdToRaw(prefix);
    match rep
    case Participant(domain, _) =>
      if raw in c.participants && c.participants[raw].domain == domain {
        assert (raw, ParticipantRef(c.participants[raw].instance, domain)) in c.participants.Items;
      }
    case Topic(_, _, ref) =>
      EntryOfName(c.topics, raw, RemoveSuffix(ref, "__t"));
    case DataWriter(_, choice) =>
      var name := AskedName(c, choice, "__dw");
      if name.Some? {
        EntryOfName(c.datawriters, raw, name.value);
      }
    case DataReader(_, choice) =>
      var name := AskedName(c, choice, "__dr");
      if name.Some? {
        EntryOfName(c.datareaders, raw, name.value);
      }
    case _ =>
  }

  lemma EntryOfName(m: map<nat, TopicRef>, raw: nat, name: string)
    ensures raw in m && m[raw].name == name <==> exists i :: (raw, TopicRef(i, name)) in m.Items
  {
    if raw in m {
      assert (raw, m[raw]) in m.Items && m[raw] == TopicRef(m[raw].instance, m[raw].name);
    }
  }

  /** An id that is there: the four modes, a matching and a different object. */
  lemma TableSeven(t: Table, mode: CreationMode, prefix: ObjectId, rep: Representation)
    requires rep.Wellformed() && WithKind(prefix, rep.Kind()) in t.objects
    ensures var (status, u) := Creation(t, mode, prefix, rep);
            && (status.ErrAlreadyExists? <==> !mode.reuse && !mode.replace)
            && (status.ErrMismatch? <==> mode.reuse && !mode.replace && !IsTheOne(t.ced, prefix, rep))
            && (status.StatusOkMatched? <==> mode.reuse && IsTheOne(t.ced, prefix, rep))
            && (!mode.replace || (mode.reuse && IsTheOne(t.ced, prefix, rep)) ==> u == t)
  {
    hide Make, Matched, Erase, RemoveSuffix, IsTheOne;
    RawOfKind(prefix, rep.Kind());
    MatchedIsTheOne(t.ced, prefix, rep);
  }

  /** What the middleware asks of an object whose parent is there: a format that it knows, and for a data writer or
      reader a living topic of that name in the participant of its publisher or subscriber. */
  ghost predicate Makeable(c: Ced, rep: Representation) {
    match rep
    case Participant(_, format) => !format.UnknownFormat?
    case Topic(_, format, _) => !format.UnknownFormat?
    case Publisher(_, format) => format.AsXml? || format.InBinary?
    case Subscriber(_, format) => format.AsXml? || format.InBinary?
    case DataWriter(publisher, choice) =>
      var (p, name) := (ObjectIdToRaw(publisher), AskedName(c, choice, "__dw"));
      p in c.publishers && name.Some? && LivingTopic(c, TopicRef(c.publishers[p], name.value))
    case DataReader(subscriber, choice) =>
      var (p, name) := (ObjectIdToRaw(subscriber), AskedName(c, choice, "__dr"));
      p in c.subscribers && name.Some? && LivingTopic(c, TopicRef(c.subscribers[p], name.value))
    case _ => false
  }

  /** Some topic, data writer or data reader holds the topic. */
  ghost predicate LivingTopic(c: Ced, topic: TopicRef) {
    || (exists raw :: (raw, topic) in c.topics.Items)
    || (exists raw :: (raw, topic) in c.datawriters.Items)
    || (exists raw :: (raw, topic) in c.datareaders.Items)
  }

  lemma FindsLiving(c: Ced, topic: TopicRef)
    ensures c.Finds(topic) <==> LivingTopic(c, topic)
  {
    if topic in c.topics.Values {
      var raw :| raw in c.topics && c.topics[raw] == topic;
      assert (raw, topic) in c.topics.Items;
    }
    if topic in c.datawriters.Values {
      var raw :| raw in c.datawriters && c.datawriters[raw] == topic;
      assert (raw, topic) in c.datawriters.Items;
    }
    if topic in c.datareaders.Values {
      var raw :| raw in c.datareaders && c.datareaders[raw] == topic;
      assert (raw, topic) in c.datareaders.Items;
    }
  }

  /** The participant, publisher or subscriber that the representation names, by its kind. */
  function NamedParent(rep: Representation): Option<ObjectId> {
    match rep
    case Participant(_, _) => None
    case Topic(p, _, _) => Some(WithKind(p, 1))
    case Publisher(p, _) => Some(WithKind(p, 1))
    case Subscriber(p, _) => Some(WithKind(p, 1))
    case DataWriter(p, _) => Some(WithKind(p, 3))
    case DataReader(p, _) => Some(WithKind(p, 4))
    case Requester(p) => Some(WithKind(p, 1))
    case Replier(p) => Some(WithKind(p, 1))
    case Unsupported(_) => None
  }

  lemma MadeIffMakeable(c: Ced, raw: nat, rep: Representation)
    requires rep.Wellformed() && raw !in c.Ids(rep.Kind())
    requires match rep
             case Topic(p, _, _) => ObjectIdToRaw(p) in c.participants
             case Publisher(p, _) => ObjectIdToRaw(p) in c.participants
             case Subscriber(p, _) => ObjectIdToRaw(p) in c.participants
             case _ => true
    ensures Make(c, raw, rep).Made? <==> Makeable(c, rep)
  {
    hide RemoveSuffix, ObjectIdToRaw, LivingTopic, Ced.Finds;
    forall topic
      ensures c.Finds(topic) <==> LivingTopic(c, topic)
    {
      FindsLiving(c, topic);
    }
  }

  lemma ParentIsNamed(t: Table, rep: Representation)
    requires t.Agrees()
    ensures ParentOf(rep) <= t.objects <==> (NamedParent(rep).Some? ==> NamedParent(rep).value in t.objects)
  {
    hide WithKind;
  }

  lemma ParticipantIsThere(t: Table, p: ObjectId)
    requires t.Agrees() && WithKind(p, 1) in t.objects
    ensures ObjectIdToRaw(p) in t.ced.participants
  {
    RawOfKind(p, 1);
    WithKindHasKind(p, 1);
  }

  /** An id that is not there: unknown reference exactly if the named parent is missing, a middleware error exactly if
      the middleware cannot make it, and otherwise success. */
  lemma MissingIsCreatedIff(t: Table, mode: CreationMode, prefix: ObjectId, rep: Representation)
    requires t.Agrees() && rep.Wellformed() && !rep.Unsupported? && WithKind(prefix, rep.Kind()) !in t.objects
    ensures var status := Creation(t, mode, prefix, rep).0;
            var orphan := NamedParent(rep).Some? && NamedParent(rep).value !in t.objects;
            && (status.ErrUnknownReference? <==> orphan)
            && (status.ErrDdsError? <==> !orphan && !Makeable(t.ced, rep))
            && (status.StatusOk? <==> !orphan && Makeable(t.ced, rep))
  {
    hide Make, Erase, RemoveSuffix, Makeable;
    var id := WithKind(prefix, rep.Kind());
    WithKindHasKind(prefix, rep.Kind());
    ParentIsNamed(t, rep);
    if NamedParent(rep).Some? ==> NamedParent(rep).value in t.objects {
      match rep {
        case Topic(p, _, _) => ParticipantIsThere(t, p);
        case Publisher(p, _) => ParticipantIsThere(t, p);
        case Subscriber(p, _) => ParticipantIsThere(t, p);
        case _ =>
      }
      MadeIffMakeable(t.ced, ObjectIdToRaw(id), rep);
    }
  }

  /** Replacing is removing and creating anew. */
  lemma ReplacingIsCreatingAnew(t: Table, mode: CreationMode, prefix: ObjectId, rep: Representation)
    requires t.Agrees() && rep.Wellformed() && mode.replace && WithKind(prefix, rep.Kind()) in t.objects
    requires !(mode.reuse && IsTheOne(t.ced, prefix, rep))
    ensures Creation(t, mode, prefix, rep) ==
            Creation(Removed(t, WithKind(prefix, rep.Kind())), mode, prefix, rep)
  {
    hide Make, Erase, RemoveSuffix, Matched, IsTheOne, Attempt;
    RawOfKind(prefix, rep.Kind());
    MatchedIsTheOne(t.ced, prefix, rep);
    RemovalKeepsAgreement(t, WithKind(prefix, rep.Kind()));
  }

  /** What a success has made: the entity asked for, under its raw id. */
  lemma CreatedIsTheOne(t: Table, mode: CreationMode, prefix: ObjectId, rep: Representation)
    requires t.Agrees() && rep.Wellformed() && !rep.Unsupported?
    requires WithKind(prefix, rep.Kind()) !in t.objects && Creation(t, mode, prefix, rep).0.StatusOk?
    ensures var u := Creation(t, mode, prefix, rep).1;
            u.objects == t.objects + {WithKind(prefix, rep.Kind())} && IsTheOne(u.ced, prefix, rep)
  {
    hide Make, Erase, RemoveSuffix, Matched, IsTheOne;
    RawOfKind(prefix, rep.Kind());
    WithKindHasKind(prefix, rep.Kind());
    SuccessIsVisible(t, WithKind(prefix, rep.Kind()), rep);
    MatchedIsTheOne(Creation(t, mode, prefix, rep).1.ced, prefix, rep);
  }

  /** What a new entity refers to: a participant is unlike all before it, a topic, publisher or subscriber belongs to
      the participant it names, a data writer or reader to the topic of its name there. */
  lemma CreatedBelongs(t: Table, mode: CreationMode, prefix: ObjectId, rep: Representation)
    requires t.Agrees() && rep.Wellformed() && !rep.Unsupported?
    requires WithKind(prefix, rep.Kind()) !in t.objects && Creation(t, mode, prefix, rep).0.StatusOk?
    ensures var (c, d, raw) := (t.ced, Creation(t, mode, prefix, rep).1.ced, ObjectIdToRaw(prefix));
            match rep
            case Participant(domain, _) =>
              && d.participants == c.participants[raw := ParticipantRef(c.nextInstance, domain)]
              && d.nextInstance > c.nextInstance
            case Topic(p, _, ref) =>
              && ObjectIdToRaw(p) in c.participants
              && d.topics == c.topics[raw := TopicRef(c.participants[ObjectIdToRaw(p)].instance,
                                                      RemoveSuffix(ref, "__t"))]
            case Publisher(p, _) =>
              && ObjectIdToRaw(p) in c.participants
              && d.publishers == c.publishers[raw := c.participants[ObjectIdToRaw(p)].instance]
            case Subscriber(p, _) =>
              && ObjectIdToRaw(p) in c.participants
              && d.subscribers == c.subscribers[raw := c.participants[ObjectIdToRaw(p)].instance]
            case DataWriter(p, choice) =>
              && ObjectIdToRaw(p) in c.publishers && AskedName(c, choice, "__dw").Some?
              && d.datawriters ==
                   c.datawriters[raw := TopicRef(c.publishers[ObjectIdToRaw(p)], AskedName(c, choice, "__dw").value)]
            case DataReader(p, choice) =>
              && ObjectIdToRaw(p) in c.subscribers && AskedName(c, choice, "__dr").Some?
              && d.datareaders ==
                   c.datareaders[raw := TopicRef(c.subscribers[ObjectIdToRaw(p)], AskedName(c, choice, "__dr").value)]
            case _ => false
  {
    RawOfKind(prefix, rep.Kind());
    hide RemoveSuffix, ObjectIdToRaw, WithKind, Ced.Finds;
  }

  /** Every participant there is has a number below the next one, and no two have the same. */
  ghost predicate Numbered(c: Ced) {
    && (forall raw :: raw in c.participants ==> c.participants[raw].instance < c.nextInstance)
    && (forall a, b :: a in c.participants && b in c.participants && a != b ==>
          c.participants[a].instance != c.participants[b].instance)
  }

  /** After any sequence of calls participants are told apart, so that no two share a topic. */
  lemma {:induction false} ParticipantsAreToldApart(t: Table, calls: seq<Call>)
    requires Numbered(t.ced) && WellformedCalls(calls)
    ensures Numbered(Called(t, calls).ced)
  {
    hide Numbered, Creation, Removed;
    if calls != [] {
      ParticipantsAreToldApart(t, calls[..|calls| - 1]);
      var u := Called(t, calls[..|calls| - 1]);
      match calls[|calls| - 1] {
        case Create(mode, prefix, rep) => CreationKeepsNumbers(u, mode, prefix, rep);
        case Delete(id) => RemovalKeepsNumbers(u, id);
        case Release => NoneIsNumbered(u);
      }
    }
  }

  lemma NoneIsNumbered(t: Table)
    ensures Numbered(Released(t).ced)
  {
  }

  lemma RemovalKeepsNumbers(t: Table, id: ObjectId)
    requires Numbered(t.ced)
    ensures Numbered(Removed(t, id).ced)
  {
    hide Removed;
    DeletionChangesNoEntity(t, id);
  }

  lemma MakingKeepsNumbers(c: Ced, raw: nat, rep: Representation)
    requires Numbered(c) && Make(c, raw, rep).Made?
    ensures Numbered(Make(c, raw, rep).ced)
  {
    hide RemoveSuffix, ObjectIdToRaw, Ced.Finds;
  }

  lemma CreationKeepsNumbers(t: Table, mode: CreationMode, prefix: ObjectId, rep: Representation)
    requires Numbered(t.ced) && rep.Wellformed()
    ensures Numbered(Creation(t, mode, prefix, rep).1.ced)
  {
    hide Make, Matched, Numbered, Removed;
    var id := WithKind(prefix, rep.Kind());
    RemovalKeepsNumbers(t, id);
    if Make(t.ced, ObjectIdToRaw(id), rep).Made? {
      MakingKeepsNumbers(t.ced, ObjectIdToRaw(id), rep);
    }
    var rest := Removed(t, id).ced;
    if Make(rest, ObjectIdToRaw(id), rep).Made? {
      MakingKeepsNumbers(rest, ObjectIdToRaw(id), rep);
    }
  }

  lemma SuccessIsVisible(t: Table, id: ObjectId, rep: Representation)
    requires rep.Wellformed() && !rep.Unsupported? && KindOf(id) == rep.Kind()
    requires Attempt(t, id, rep).0.StatusOk?
    ensures var u := Attempt(t, id, rep).1;
            && id in u.objects
            && ObjectIdToRaw(id) in u.ced.Ids(rep.Kind())
            && Matched(u.ced, ObjectIdToRaw(id), rep)
  {
    MakeAddsOneId(t.ced, ObjectIdToRaw(id), rep, rep.Kind());
  }

  /** A successful creation of a supported kind leaves the id in both, and the middleware entity matches what was
      asked for. */
  lemma SuccessfulCreationIsVisible(t: Table, mode: CreationMode, prefix: ObjectId, rep: Representation)
    requires t.Agrees() && rep.Wellformed() && !rep.Unsupported?
    requires Creation(t, mode, prefix, rep).0.StatusOk? || Creation(t, mode, prefix, rep).0.StatusOkMatched?
    ensures var (id, u) := (WithKind(prefix, rep.Kind()), Creation(t, mode, prefix, rep).1);
            && id in u.objects
            && ObjectIdToRaw(id) in u.ced.Ids(rep.Kind())
            && Matched(u.ced, ObjectIdToRaw(id), rep)
  {
    var id := WithKind(prefix, rep.Kind());
    WithKindHasKind(prefix, rep.Kind());
    if id !in t.objects {
      SuccessIsVisible(t, id, rep);
    } else if !Creation(t, mode, prefix, rep).0.StatusOkMatched? {
      SuccessIsVisible(Removed(t, id), id, rep);
    }
  }

  datatype Call =
    | Create(mode: CreationMode, prefix: ObjectId, rep: Representation)
    | Delete(id: ObjectId)
    | Release

  ghost predicate WellformedCalls(calls: seq<Call>) {
    forall i :: 0 <= i < |calls| && calls[i].Create? ==> calls[i].rep.Wellformed()
  }

  ghost function Called(t: Table, calls: seq<Call>): Table
    requires WellformedCalls(calls)
  {
    if calls == [] then t
    else
      var u := Called(t, calls[..|calls| - 1]);
      match calls[|calls| - 1]
      case Create(mode, prefix, rep) => Creation(u, mode, prefix, rep).1
      case Delete(id) => Removed(u, id)
      case Release => Released(u)
  }

  /** After any sequence of creations in any mode, deletions and releases, table and middleware agree. */
  lemma {:induction false} CallsKeepAgreement(t: Table, calls: seq<Call>)
    requires t.Agrees() && WellformedCalls(calls)
    ensures Called(t, calls).Agrees()
  {
    if calls != [] {
      CallsKeepAgreement(t, calls[..|calls| - 1]);
      var u := Called(t, calls[..|calls| - 1]);
      match calls[|calls| - 1]
      case Create(mode, prefix, rep) => CreationKeepsAgreement(u, mode, prefix, rep);
      case Delete(id) => RemovalKeepsAgreement(u, id);
      case Release =>
    }
  }
}
