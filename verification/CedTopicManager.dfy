/** The registry of global topics and its listeners (src/cpp/middleware/ced/CedEntities.cpp, `CedTopicManager`).  The
    source nests its map: a domain leads to a map from names to weak references.  Here `domains` is the outer key set
    and `topics` the inner entries.  A topic lives as long as somebody owns it, and its destructor takes it out of the
    registry.  A callback registered under a key is represented by the notices it has been called with, `heard[key]`.
    Every operation runs under the manager's mutex. */
module CedTopicManagers {

  import opened Words

  type TopicId = nat
  type DomainId = d: int | -0x8000 <= d < 0x8000
  type Pair = (DomainId, string)

  datatype Notice = NewDomain(domain: DomainId) | NewTopic(domain: DomainId, name: string)

  // ---------- what a listener has heard ----------

  /** What a listener knows: the domains and topics it was told of, and whether every domain came before its topics. */
  datatype Knowledge = Knowledge(domains: set<DomainId>, topics: set<Pair>, ordered: bool)

  function Learn(k: Knowledge, notice: Notice): Knowledge {
    match notice
    case NewDomain(d) => k.(domains := k.domains + {d})
    case NewTopic(d, n) => k.(topics := k.topics + {(d, n)}, ordered := k.ordered && d in k.domains)
  }

  function Learned(notices: seq<Notice>): Knowledge {
    if notices == [] then Knowledge({}, {}, true)
    else Learn(Learned(notices[..|notices| - 1]), notices[|notices| - 1])
  }

  lemma LearnedOneMore(notices: seq<Notice>, notice: Notice)
    ensures Learned(notices + [notice]) == Learn(Learned(notices), notice)
  {
    assert (notices + [notice])[..|notices|] == notices;
  }

  lemma NothingLearned()
    ensures Learned([]) == Knowledge({}, {}, true)
  {
  }

  lemma {:induction false} LearnedDomains(notices: seq<Notice>)
    ensures forall d: DomainId :: d in Learned(notices).domains <==> NewDomain(d) in notices
  {
    if notices != [] {
      var (before, last) := (notices[..|notices| - 1], notices[|notices| - 1]);
      LearnedDomains(before);
      assert notices == before + [last];
    }
  }

  lemma {:induction false} LearnedTopics(notices: seq<Notice>)
    ensures forall d: DomainId, n :: (d, n) in Learned(notices).topics <==> NewTopic(d, n) in notices
  {
    if notices != [] {
      var (before, last) := (notices[..|notices| - 1], notices[|notices| - 1]);
      LearnedTopics(before);
      assert notices == before + [last];
    }
  }

  /** The call is not one about a topic of a domain that no earlier call was about. */
  ghost predicate Introduced(notices: seq<Notice>, i: nat)
    requires i < |notices|
  {
    notices[i].NewTopic? ==> NewDomain(notices[i].domain) in notices[..i]
  }

  lemma {:induction false} LearnedOrder(notices: seq<Notice>)
    ensures Learned(notices).ordered <==> forall i :: 0 <= i < |notices| ==> Introduced(notices, i)
  {
    if notices != [] {
      var (before, last) := (notices[..|notices| - 1], notices[|notices| - 1]);
      LearnedOrder(before);
      LearnedDomains(before);
      forall i | 0 <= i < |before|
        ensures Introduced(notices, i) <==> Introduced(before, i)
      {
        assert notices[..i] == before[..i];
      }
      assert Introduced(notices, |before|) <==> (last.NewTopic? ==> NewDomain(last.domain) in before);
      assert Learned(notices) == Learn(Learned(before), last);
    }
  }

  /** What the summary says about the calls themselves. */
  lemma LearnedFromCalls(notices: seq<Notice>)
    ensures forall d: DomainId :: d in Learned(notices).domains <==> NewDomain(d) in notices
    ensures forall d: DomainId, n :: (d, n) in Learned(notices).topics <==> NewTopic(d, n) in notices
    ensures Learned(notices).ordered <==> forall i :: 0 <= i < |notices| ==> Introduced(notices, i)
  {
    LearnedDomains(notices);
    LearnedTopics(notices);
    LearnedOrder(notices);
  }

  type Heard = map<uint32, seq<Notice>>

  function HeardBy(heard: Heard, key: uint32): seq<Notice> {
    if key in heard then heard[key] else []
  }

  function Knows(heard: Heard, key: uint32): Knowledge {
    Learned(HeardBy(heard, key))
  }

  /** The callback of a key was called once more for each of these. */
  ghost predicate HeardMore<T>(before: Heard, after: Heard, key: uint32, about: set<T>) {
    HeardBy(before, key) <= HeardBy(after, key) && |HeardBy(after, key)| == |HeardBy(before, key)| + |about|
  }

  lemma HeardOneMore<T>(before: Heard, after: Heard, key: uint32, about: set<T>, left: set<T>, t: T, notice: Notice)
    requires left <= about && HeardMore(before, after, key, about - left) && t in left
    ensures HeardMore(before, after[key := HeardBy(after, key) + [notice]], key, about - (left - {t}))
  {
    assert about - (left - {t}) == about - left + {t};
  }

  lemma HeardNoMore<T>(heard: Heard, key: uint32, about: set<T>)
    ensures HeardMore(heard, heard, key, about - about)
  {
  }

  // ---------- the registry ----------

  function DomainsOf(topics: map<Pair, TopicId>): set<DomainId> {
    set p | p in topics.Keys :: p.0
  }

  /** The entries of the registry are exactly the living topics. */
  ghost predicate Living(topics: map<Pair, TopicId>, identity: map<TopicId, Pair>, owners: map<TopicId, nat>) {
    && (forall p :: p in topics ==> topics[p] in identity && identity[topics[p]] == p)
    && (forall t :: t in identity ==> identity[t] in topics && topics[identity[t]] == t)
    && owners.Keys == identity.Keys
    && (forall t :: t in owners ==> owners[t] > 0)
  }

  lemma EnteringKeepsLiving(topics: map<Pair, TopicId>, identity: map<TopicId, Pair>, owners: map<TopicId, nat>,
                            p: Pair, t: TopicId)
    requires Living(topics, identity, owners) && p !in topics && t !in owners
    ensures Living(topics[p := t], identity[t := p], owners[t := 1])
  {
  }

  lemma RemovingKeepsLiving(topics: map<Pair, TopicId>, identity: map<TopicId, Pair>, owners: map<TopicId, nat>,
                            t: TopicId)
    requires Living(topics, identity, owners) && t in owners
    ensures Living(topics - {identity[t]}, identity - {t}, owners - {t})
  {
  }

  lemma DomainsAfterEntering(topics: map<Pair, TopicId>, p: Pair, topic: TopicId)
    ensures DomainsOf(topics[p := topic]) == DomainsOf(topics) + {p.0}
  {
    assert topics[p := topic].Keys == topics.Keys + {p};
  }

  lemma DomainsAfterRemoving(topics: map<Pair, TopicId>, p: Pair)
    requires p in topics
    ensures var rest := topics - {p};
            DomainsOf(topics) == DomainsOf(rest) + {p.0}
  {
    assert topics.Keys == (topics - {p}).Keys + {p};
  }

  /** A listener was told of all these domains except some. */
  ghost predicate ToldDomains(before: Heard, after: Heard, key: uint32, domains: set<DomainId>, left: set<DomainId>) {
    var was := Knows(before, key);
    Knows(after, key) == was.(domains := was.domains + (domains - left)) &&
      HeardMore(before, after, key, domains - left)
  }

  lemma NoDomainYet(heard: Heard, key: uint32, domains: set<DomainId>)
    ensures ToldDomains(heard, heard, key, domains, domains)
  {
    HeardNoMore(heard, key, domains);
  }

  lemma OneMoreDomain(before: Heard, after: Heard, key: uint32, domains: set<DomainId>, left: set<DomainId>,
                      d: DomainId)
    requires ToldDomains(before, after, key, domains, left) && left <= domains && d in left
    ensures var notices := HeardBy(after, key) + [NewDomain(d)];
            ToldDomains(before, after[key := notices], key, domains, left - {d})
  {
    hide Learned, HeardMore;
    LearnedOneMore(HeardBy(after, key), NewDomain(d));
    HeardOneMore(before, after, key, domains, left, d, NewDomain(d));
    assert domains - (left - {d}) == domains - left + {d};
  }

  lemma AllDomains(before: Heard, after: Heard, key: uint32, domains: set<DomainId>)
    requires ToldDomains(before, after, key, domains, {})
    ensures var was := Knows(before, key);
            Knows(after, key) == was.(domains := was.domains + domains)
    ensures HeardMore(before, after, key, domains)
  {
    assert domains - {} == domains;
  }

  /** A listener was told of all these topics except some. */
  ghost predicate ToldTopics(before: Heard, after: Heard, key: uint32, topics: map<Pair, TopicId>, left: set<Pair>) {
    var (was, now) := (Knows(before, key), Knows(after, key));
    && now.domains == was.domains
    && now.topics == was.topics + (topics.Keys - left)
    && (was.ordered && DomainsOf(topics) <= was.domains ==> now.ordered)
    && HeardMore(before, after, key, topics.Keys - left)
  }

  lemma NoneToldYet(heard: Heard, key: uint32, topics: map<Pair, TopicId>)
    ensures ToldTopics(heard, heard, key, topics, topics.Keys)
  {
    HeardNoMore(heard, key, topics.Keys);
  }

  lemma ToldOneMore(before: Heard, after: Heard, key: uint32, topics: map<Pair, TopicId>, left: set<Pair>, p: Pair)
    requires ToldTopics(before, after, key, topics, left) && left <= topics.Keys && p in left
    ensures var notices := HeardBy(after, key) + [NewTopic(p.0, p.1)];
            ToldTopics(before, after[key := notices], key, topics, left - {p})
  {
    hide Learned, HeardMore;
    LearnedOneMore(HeardBy(after, key), NewTopic(p.0, p.1));
    HeardOneMore(before, after, key, topics.Keys, left, p, NewTopic(p.0, p.1));
    assert p.0 in DomainsOf(topics);
    assert topics.Keys - (left - {p}) == topics.Keys - left + {p};
  }

  lemma AllTold(before: Heard, after: Heard, key: uint32, topics: map<Pair, TopicId>)
    requires ToldTopics(before, after, key, topics, {})
    ensures var (was, now) := (Knows(before, key), Knows(after, key));
            && now.domains == was.domains
            && now.topics == was.topics + topics.Keys
            && (was.ordered && DomainsOf(topics) <= was.domains ==> now.ordered)
    ensures HeardMore(before, after, key, topics.Keys)
  {
    assert topics.Keys - {} == topics.Keys;
  }

  class CedTopicManager {
    var domains: set<DomainId>
    var topics: map<Pair, TopicId>
    var domainKeys: set<uint32>
    var topicKeys: set<uint32>
    var heard: Heard
    /** Owners of each living topic, and the domain and name it was made for. */
    var owners: map<TopicId, nat>
    var identity: map<TopicId, Pair>
    /** Keys that were fresh when they registered for domains, and those of them that then registered for topics. */
    ghost var domainListeners: set<uint32>
    ghost var listeners: set<uint32>

    /** The registry holds exactly the living topics, and exactly the domains that have one. */
    ghost predicate Exact()
      reads this`domains, this`topics, this`identity, this`owners
    {
      domains == DomainsOf(topics) && Living(topics, identity, owners)
    }

    /** Listeners have heard of every living domain and topic, in the right order. */
    ghost predicate Informed()
      reads this`domains, this`topics, this`domainKeys, this`topicKeys, this`heard, this`domainListeners, this`listeners
    {
      && domainListeners <= domainKeys
      && listeners <= topicKeys
      && listeners <= domainListeners
      && (forall k :: k in domainListeners ==> Knows(heard, k).ordered && domains <= Knows(heard, k).domains)
      && (forall k :: k in listeners ==> topics.Keys <= Knows(heard, k).topics)
    }

    ghost predicate Valid()
      reads this
    {
      Exact() && Informed()
    }

    constructor ()
      ensures Valid() && topics == map[] && owners == map[] && heard == map[] && listeners == {}
    {
      domains, topics, domainKeys, topicKeys, heard := {}, map[], {}, {}, map[];
      owners, identity := map[], map[];
      domainListeners, listeners := {}, {};
    }

    /** Call the callbacks of all `keys`. */
    method NotifyAll(keys: set<uint32>, notice: Notice)
      modifies this`heard
      ensures forall k :: k in keys ==> HeardBy(heard, k) == HeardBy(old(heard), k) + [notice]
      ensures forall k :: k !in keys ==> HeardBy(heard, k) == HeardBy(old(heard), k)
    {
      var todo := keys;
      while todo != {}
        invariant todo <= keys
        invariant forall k :: k in keys - todo ==> HeardBy(heard, k) == HeardBy(old(heard), k) + [notice]
        invariant forall k :: k !in keys - todo ==> HeardBy(heard, k) == HeardBy(old(heard), k)
        decreases todo
      {
        var k :| k in todo;
        heard := heard[k := HeardBy(heard, k) + [notice]];
        todo := todo - {k};
      }
    }

    method TellDomains(key: uint32)
      modifies this`heard
      ensures var was := Knows(old(heard), key);
              Knows(heard, key) == was.(domains := was.domains + domains)
      ensures HeardMore(old(heard), heard, key, domains)
      ensures forall k :: k != key ==> HeardBy(heard, k) == HeardBy(old(heard), k)
    {
      hide Learned, HeardMore, Knows, ToldDomains;
      var todo := domains;
      NoDomainYet(heard, key, domains);
      while todo != {}
        invariant todo <= domains
        invariant ToldDomains(old(heard), heard, key, domains, todo)
        invariant forall k :: k != key ==> HeardBy(heard, k) == HeardBy(old(heard), k)
        decreases todo
      {
        var d :| d in todo;
        OneMoreDomain(old(heard), heard, key, domains, todo, d);
        heard := heard[key := HeardBy(heard, key) + [NewDomain(d)]];
        todo := todo - {d};
      }
      AllDomains(old(heard), heard, key, domains);
    }

    /** The new callback is first told of every domain, then kept; an existing key keeps its old callback. */
    method RegisterOnNewDomain(key: uint32)
      requires Valid()
      modifies this`heard, this`domainKeys, this`domainListeners
      ensures Valid()
      ensures domainKeys == old(domainKeys) + {key}
      ensures var was := Knows(old(heard), key);
              Knows(heard, key) == was.(domains := was.domains + domains)
      ensures HeardMore(old(heard), heard, key, domains)
      ensures forall k :: k != key ==> HeardBy(heard, k) == HeardBy(old(heard), k)
      ensures domainListeners == old(domainListeners) + (if HeardBy(old(heard), key) == [] then {key} else {})
    {
      NothingLearned();
      hide Learned, Living, HeardMore;
      TellDomains(key);
      domainKeys := domainKeys + {key};
      if HeardBy(old(heard), key) == [] {
        domainListeners := domainListeners + {key};
      }
    }

    method UnregisterOnNewDomain(key: uint32)
      requires Valid()
      modifies this`domainKeys, this`domainListeners, this`listeners
      ensures Valid()
      ensures domainKeys == old(domainKeys) - {key} && listeners == old(listeners) - {key}
      ensures domainListeners == old(domainListeners) - {key}
    {
      domainKeys := domainKeys - {key};
      domainListeners := domainListeners - {key};
      listeners := listeners - {key};
    }

    method UnregisterOnNewTopic(key: uint32)
      requires Valid()
      modifies this`topicKeys, this`listeners
      ensures Valid()
      ensures topicKeys == old(topicKeys) - {key} && listeners == old(listeners) - {key}
    {
      topicKeys := topicKeys - {key};
      listeners := listeners - {key};
    }

    method TellTopics(key: uint32)
      modifies this`heard
      ensures var was := Knows(old(heard), key);
              var now := Knows(heard, key);
              && now.domains == was.domains
              && now.topics == was.topics + topics.Keys
              && (was.ordered && DomainsOf(topics) <= was.domains ==> now.ordered)
      ensures HeardMore(old(heard), heard, key, topics.Keys)
      ensures forall k :: k != key ==> HeardBy(heard, k) == HeardBy(old(heard), k)
    {
      hide Learned, HeardMore, Knows, DomainsOf, ToldTopics;
      var todo := topics.Keys;
      NoneToldYet(heard, key, topics);
      while todo != {}
        invariant todo <= topics.Keys
        invariant ToldTopics(old(heard), heard, key, topics, todo)
        invariant forall k :: k != key ==> HeardBy(heard, k) == HeardBy(old(heard), k)
        decreases todo
      {
        var p :| p in todo;
        ToldOneMore(old(heard), heard, key, topics, todo, p);
        heard := heard[key := HeardBy(heard, key) + [NewTopic(p.0, p.1)]];
        todo := todo - {p};
      }
      AllTold(old(heard), heard, key, topics);
    }

    /** A key that registered for domains while fresh, and now for topics, has heard of every living topic and misses
        none from here on. */
    method RegisterOnNewTopic(key: uint32)
      requires Valid()
      modifies this`heard, this`topicKeys, this`listeners
      ensures Valid()
      ensures topicKeys == old(topicKeys) + {key}
      ensures Knows(heard, key).topics == Knows(old(heard), key).topics + topics.Keys
      ensures HeardMore(old(heard), heard, key, topics.Keys)
      ensures forall k :: k != key ==> HeardBy(heard, k) == HeardBy(old(heard), k)
      ensures listeners == old(listeners) + (if key in domainListeners then {key} else {})
    {
      hide Learned, Living, HeardMore;
      TellTopics(key);
      topicKeys := topicKeys + {key};
      if key in domainListeners {
        listeners := listeners + {key};
      }
    }

    /** Enter the domain if it is new, and tell the domain callbacks. */
    method EnsureDomain(domain: DomainId)
      requires Informed()
      modifies this`domains, this`heard
      ensures Informed()
      ensures domains == old(domains) + {domain}
      ensures domain in old(domains) ==> heard == old(heard)
      ensures forall k :: HeardBy(heard, k) ==
                HeardBy(old(heard), k) +
                  (if domain !in old(domains) && k in domainKeys then [NewDomain(domain)] else [])
    {
      hide Learned;
      if domain !in domains {
        domains := domains + {domain};
        NotifyAll(domainKeys, NewDomain(domain));
        forall k | k in domainKeys
          ensures Knows(heard, k) == Learn(Knows(old(heard), k), NewDomain(domain))
        {
          LearnedOneMore(HeardBy(old(heard), k), NewDomain(domain));
        }
      }
    }

    /** Tell the topic callbacks of a new topic, and enter it. */
    method EnterTopic(p: Pair, topic: TopicId)
      requires Informed() && Living(topics, identity, owners) && domains == DomainsOf(topics) + {p.0}
      requires p !in topics && topic !in owners
      modifies this`topics, this`heard, this`owners, this`identity
      ensures Informed() && Exact()
      ensures topics == old(topics)[p := topic] && owners == old(owners)[topic := 1]
      ensures forall k :: HeardBy(heard, k) ==
                HeardBy(old(heard), k) + (if k in topicKeys then [NewTopic(p.0, p.1)] else [])
    {
      hide Learned, Living, HeardMore;
      DomainsAfterEntering(topics, p, topic);
      EnteringKeepsLiving(topics, identity, owners, p, topic);
      NotifyAll(topicKeys, NewTopic(p.0, p.1));
      forall k | k in topicKeys
        ensures Knows(heard, k) == Learn(Knows(old(heard), k), NewTopic(p.0, p.1))
      {
        LearnedOneMore(HeardBy(old(heard), k), NewTopic(p.0, p.1));
      }
      topics := topics[p := topic];
      owners := owners[topic := 1];
      identity := identity[topic := p];
    }

    /** Two registrations of a living pair share one topic; otherwise a new topic is announced and entered. */
    method RegisterTopic(name: string, domain: DomainId, newTopic: TopicId) returns (topic: TopicId)
      requires Valid() && newTopic !in owners
      modifies this
      ensures Valid()
      ensures var p := (domain, name);
              if p in old(topics)
              then topic == old(topics)[p] && topics == old(topics) && heard == old(heard)
                   && owners == old(owners)[topic := old(owners)[topic] + 1]
              else topic == newTopic && topics == old(topics)[p := topic]
                   && owners == old(owners)[topic := 1]
      ensures listeners == old(listeners) && domainKeys == old(domainKeys) && topicKeys == old(topicKeys)
      ensures forall k :: HeardBy(heard, k) ==
                HeardBy(old(heard), k)
                + (if domain !in old(domains) && k in domainKeys then [NewDomain(domain)] else [])
                + (if (domain, name) !in old(topics) && k in topicKeys then [NewTopic(domain, name)] else [])
    {
      EnsureDomain(domain);
      var p := (domain, name);
      if p !in topics {
        EnterTopic(p, newTopic);
        topic := newTopic;
      } else {
        topic := topics[p];
        assert domain in DomainsOf(topics);
        owners := owners[topic := owners[topic] + 1];
      }
    }

    /** The destructor's `unregister_topic`: an expired entry goes, and its domain with it if nothing is left there. */
    method UnregisterTopic(name: string, domain: DomainId) returns (rv: bool)
      requires Informed()
      modifies this`domains, this`topics
      ensures Informed()
      ensures rv <==> (domain, name) in old(topics) && old(topics)[(domain, name)] !in owners && domain in old(domains)
      ensures topics == if rv then old(topics) - {(domain, name)} else old(topics)
      ensures domains == if rv && domain !in DomainsOf(topics) then old(domains) - {domain} else old(domains)
    {
      rv := false;
      var p := (domain, name);
      if domain in domains && p in topics && topics[p] !in owners {
        topics := topics - {p};
        if domain !in DomainsOf(topics) {
          domains := domains - {domain};
        }
        rv := true;
      }
    }

    /** The last owner lets go of a topic. */
    method RemoveTopic(topic: TopicId)
      requires Valid() && topic in owners
      modifies this`domains, this`topics, this`owners, this`identity
      ensures Valid()
      ensures topics == old(topics) - {old(identity)[topic]} && owners == old(owners) - {topic}
    {
      var (domain, name) := identity[topic];
      DomainsAfterRemoving(topics, (domain, name));
      RemovingKeepsLiving(topics, identity, owners, topic);
      assert domain in DomainsOf(topics);
      owners := owners - {topic};
      identity := identity - {topic};
      var _ := UnregisterTopic(name, domain);
    }

    /** One owner lets go of a topic; the last one takes the topic out of the registry. */
    method Release(topic: TopicId)
      requires Valid() && topic in owners
      modifies this
      ensures Valid()
      ensures heard == old(heard) && listeners == old(listeners)
      ensures if old(owners)[topic] > 1
              then topics == old(topics) && owners == old(owners)[topic := old(owners)[topic] - 1]
              else topics == old(topics) - {old(identity)[topic]} && owners == old(owners) - {topic}
    {
      if owners[topic] > 1 {
        owners := owners[topic := owners[topic] - 1];
      } else {
        RemoveTopic(topic);
      }
    }
  }

  /** What a listener's callback was called with: every living topic, and every domain before its topics. */
  lemma ListenersMissNothing(m: CedTopicManager, key: uint32)
    requires m.Valid() && key in m.listeners
    ensures forall p :: p in m.topics ==> NewTopic(p.0, p.1) in HeardBy(m.heard, key)
    ensures var notices := HeardBy(m.heard, key);
            forall i :: 0 <= i < |notices| ==> Introduced(notices, i)
  {
    LearnedFromCalls(HeardBy(m.heard, key));
    forall p | p in m.topics
      ensures NewTopic(p.0, p.1) in HeardBy(m.heard, key)
    {
      assert (p.0, p.1) in Knows(m.heard, key).topics;
    }
  }
}
