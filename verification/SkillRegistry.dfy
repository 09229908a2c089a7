/** The relay's skill registry: registrations by peer, and a live skill-to-peer index kept beside them. */
module SkillRegistry {
  import opened Basics
  import opened Text
  import opened Skills

  type Nodes = map<string, Registration>
  type Index = map<string, set<string>>

  /** A skill id is indexed unless it is blank. */
  predicate Indexed(r: Registration, id: string) {
    Trim(id) != "" && HasSkill(r, id)
  }

  /** The index is the relation derived from the node map, with no empty bucket. */
  ghost predicate IndexMatches(nodes: Nodes, index: Index) {
    && (forall id :: id in index ==> index[id] != {})
    && (forall id, p :: id in index && p in index[id] ==> p in nodes && Indexed(nodes[p], id))
    && (forall id, p :: p in nodes && Indexed(nodes[p], id) ==> id in index && p in index[id])
  }

  ghost predicate PeersMatch(nodes: Nodes) {
    forall p :: p in nodes ==> nodes[p].peer == p
  }

  function Live(nodes: Nodes, now: nat): Nodes {
    map p | p in nodes && nodes[p].expiresAt > now :: nodes[p]
  }

  // ---------- Queries, said as a scan ----------

  /** The plain meaning of a query on one registration. */
  predicate Wanted(r: Registration, want: Option<string>, tags: seq<string>) {
    if want.None? || want.value == "" then tags == [] || RegistrationMatches(r, None, tags)
    else RegistrationMatches(r, want, tags)
  }

  function Scan(nodes: Nodes, want: Option<string>, tags: seq<string>): set<Registration> {
    set p | p in nodes && Wanted(nodes[p], want, tags) :: nodes[p]
  }

  /** What a query wants: every registration if it filters nothing, or one with a single skill of the id asked for and all the tags. */
  lemma WantedMeans(r: Registration, want: Option<string>, tags: seq<string>)
    ensures Wanted(r, want, tags) <==>
              || ((want == None || want == Some("")) && tags == [])
              || exists skill :: skill in r.skills && (want == None || want == Some("") || skill.id == want.value)
                                 && forall tag :: tag in tags ==> tag in skill.tags
  {
    if i :| 0 <= i < |r.skills| && (want.None? || want.value == "" || r.skills[i].id == want.value)
            && (tags == [] || HasTags(r.skills[i], tags)) {
      assert r.skills[i] in r.skills;
    }
  }

  /** A filter that is present but only whitespace: it names no indexed skill. */
  predicate BlankFilter(want: Option<string>) {
    want.Some? && want.value != "" && Trim(want.value) == ""
  }

  /** The peers discovery looks at: the bucket of a filter that is present, every node otherwise. */
  function Candidates(nodes: Nodes, index: Index, want: Option<string>): set<string> {
    if want.None? || want.value == "" then nodes.Keys
    else if want.value in index then index[want.value]
    else {}
  }

  /** What discovery finds: the wanted registrations among the candidates. */
  function ByIndex(nodes: Nodes, index: Index, want: Option<string>, tags: seq<string>): set<Registration> {
    set p | p in Candidates(nodes, index, want) && p in nodes && Wanted(nodes[p], want, tags) :: nodes[p]
  }

  function Truncated(s: seq<Registration>, limit: nat): seq<Registration> {
    if limit == 0 || |s| <= limit then s else s[..limit]
  }

  // ---------- Registration changes ----------

  /** The registration to store after a refresh: the current one or a new one, with a new expiry and non-blank texts. */
  function Refreshed(nodes: Nodes, peer: string, name: string, description: string, expiresAt: nat): Registration {
    var r := if peer in nodes then nodes[peer] else Registration(peer, [], "", "", [], expiresAt);
    r.(expiresAt := expiresAt,
       name := if Trim(name) != "" || r.name == "" then name else r.name,
       description := if Trim(description) != "" || r.description == "" then description else r.description)
  }

  /** The text a refresh leaves: the new one if it is not blank or there was none, the old one otherwise. */
  predicate TextRefreshed(old': string, given: string, now: string) {
    if Trim(given) != "" || old' == "" then now == given else now == old'
  }

  /** `after` is `live` with the registration of `peer` refreshed and every other one as it was. */
  ghost predicate RefreshesOnly(live: Nodes, after: Nodes, peer: string, name: string, description: string, expiresAt: nat) {
    && after.Keys == live.Keys + {peer}
    && (forall p :: p in live && p != peer ==> after[p] == live[p])
    && after[peer].peer == peer && after[peer].expiresAt == expiresAt
    && (if peer in live then
          && after[peer].features == live[peer].features
          && TextRefreshed(live[peer].name, name, after[peer].name)
          && TextRefreshed(live[peer].description, description, after[peer].description)
        else
          after[peer].features == [] && after[peer].name == name && after[peer].description == description)
  }

  function SkillsOf(nodes: Nodes, peer: string): seq<Skill> {
    if peer in nodes then nodes[peer].skills else []
  }

  lemma RefreshedMeans(live: Nodes, peer: string, name: string, description: string, expiresAt: nat, skills: seq<Skill>)
    requires PeersMatch(live)
    ensures var r := Refreshed(live, peer, name, description, expiresAt);
            && r.peer == peer && r.skills == SkillsOf(live, peer)
            && RefreshesOnly(live, live[peer := r.(skills := skills)], peer, name, description, expiresAt)
  {
    hide Trim;
  }

  lemma LiveMatches(nodes: Nodes, now: nat)
    requires PeersMatch(nodes)
    ensures PeersMatch(Live(nodes, now))
  {
  }

  /** `retain` of the skills whose id is not listed. */
  function Dropped(skills: seq<Skill>, ids: seq<string>): seq<Skill> {
    if skills == [] then []
    else Dropped(skills[..|skills| - 1], ids) + if skills[|skills| - 1].id in ids then [] else [skills[|skills| - 1]]
  }

  // ---------- Index changes ----------

  function Without(index: Index, peer: string): Index {
    map id | id in index && index[id] - {peer} != {} :: index[id] - {peer}
  }

  lemma RemoveMatches(nodes: Nodes, index: Index, peer: string)
    requires IndexMatches(nodes, index)
    ensures IndexMatches(nodes - {peer}, Without(index, peer))
  {
    hide Indexed;
  }

  /** The index after adding the first `n` skills of a registration. */
  ghost predicate PartlyIndexed(nodes: Nodes, index: Index, r: Registration, n: nat) {
    && n <= |r.skills|
    && (forall id :: id in index ==> index[id] != {})
    && (forall id, p :: id in index && p in index[id] ==>
          (p in nodes && Indexed(nodes[p], id)) || (p == r.peer && Trim(id) != "" && exists i :: 0 <= i < n && r.skills[i].id == id))
    && (forall id, p :: p in nodes && Indexed(nodes[p], id) ==> id in index && p in index[id])
    && (forall i :: 0 <= i < n && Trim(r.skills[i].id) != "" ==> r.skills[i].id in index && r.peer in index[r.skills[i].id])
  }

  function AddTo(index: Index, id: string, peer: string): Index {
    index[id := (if id in index then index[id] else {}) + {peer}]
  }

  lemma AddSkill(nodes: Nodes, index: Index, r: Registration, n: nat)
    requires PartlyIndexed(nodes, index, r, n) && n < |r.skills|
    ensures PartlyIndexed(nodes, if Trim(r.skills[n].id) != "" then AddTo(index, r.skills[n].id, r.peer) else index, r, n + 1)
  {
  }

  lemma FullyIndexed(nodes: Nodes, index: Index, r: Registration)
    requires PartlyIndexed(nodes, index, r, |r.skills|) && r.peer !in nodes
    ensures IndexMatches(nodes[r.peer := r], index)
  {
    hide Trim;
  }

  class Registry {
    var nodes: Nodes
    var skillIndex: Index

    ghost predicate Valid()
      reads this
    {
      PeersMatch(nodes) && IndexMatches(nodes, skillIndex)
    }

    constructor ()
      ensures Valid() && nodes == map[]
    {
      nodes, skillIndex := map[], map[];
    }

    method RemovePeer(peer: string) returns (removed: bool)
      requires Valid()
      modifies this
      ensures Valid() && nodes == old(nodes) - {peer}
      ensures removed <==> peer in old(nodes)
    {
      hide IndexMatches;
      RemoveMatches(nodes, skillIndex, peer);
      removed := peer in nodes;
      nodes := nodes - {peer};
      if removed {
        DropFromBuckets(peer);
        skillIndex := map id | id in skillIndex && skillIndex[id] != {} :: skillIndex[id];
        assert skillIndex == Without(old(skillIndex), peer);
      } else {
        assert nodes == old(nodes);
      }
    }

    /** Take the peer out of every bucket, leaving the emptied buckets to the retain that follows. */
    method DropFromBuckets(peer: string)
      modifies this`skillIndex
      ensures skillIndex.Keys == old(skillIndex).Keys
      ensures forall id :: id in skillIndex ==> skillIndex[id] == old(skillIndex)[id] - {peer}
    {
      var todo := skillIndex.Keys;
      while todo != {}
        invariant todo <= skillIndex.Keys == old(skillIndex).Keys
        invariant forall id :: id in skillIndex ==>
                    skillIndex[id] == if id in todo then old(skillIndex)[id] else old(skillIndex)[id] - {peer}
        decreases todo
      {
        var id :| id in todo;
        skillIndex := skillIndex[id := skillIndex[id] - {peer}];
        todo := todo - {id};
      }
    }

    method InsertRegistration(r: Registration)
      requires Valid()
      modifies this
      ensures Valid() && nodes == old(nodes)[r.peer := r]
    {
      hide IndexMatches, PartlyIndexed, Trim;
      var _ := RemovePeer(r.peer);
      ghost var others := nodes;
      StartIndexing(nodes, skillIndex, r);
      for n := 0 to |r.skills|
        invariant nodes == others && PartlyIndexed(others, skillIndex, r, n)
      {
        AddSkill(others, skillIndex, r, n);
        if Trim(r.skills[n].id) != "" {
          skillIndex := AddTo(skillIndex, r.skills[n].id, r.peer);
        }
      }
      FullyIndexed(others, skillIndex, r);
      nodes := nodes[r.peer := r];
    }

    method PurgeExpired(now: nat)
      requires Valid()
      modifies this
      ensures Valid() && nodes == Live(old(nodes), now)
      ensures forall p :: p in nodes <==> p in old(nodes) && !(old(nodes)[p].expiresAt <= now)
      ensures forall p :: p in nodes ==> nodes[p] == old(nodes)[p]
    {
      hide IndexMatches;
      var expired := set p | p in nodes && nodes[p].expiresAt <= now;
      var todo := expired;
      while todo != {}
        invariant Valid() && todo <= expired
        invariant nodes == old(nodes) - (expired - todo)
        decreases todo
      {
        var peer :| peer in todo;
        var _ := RemovePeer(peer);
        todo := todo - {peer};
      }
    }

    /** The reading half of discovery, on whatever the registry holds by then. */
    method Query(want: Option<string>, tags: seq<string>, limit: nat) returns (out: seq<Registration>)
      requires Valid()
      ensures exists full :: Lists(full, ByIndex(nodes, skillIndex, want, tags)) && out == Truncated(full, limit)
                && out <= full && |out| == if limit == 0 then |full| else Min(limit, |full|)
    {
      hide IndexMatches, Wanted, Ascending;
      var peers := nodes.Keys;
      if want.Some? && want.value != "" {
        peers := if want.value in skillIndex then skillIndex[want.value] else {};
      }
      var found := Collect(nodes, peers, want, tags);
      var full := SortByPeer(found);
      assert Lists(full, ByIndex(nodes, skillIndex, want, tags));
      out := Truncated(full, limit);
    }

    /** Drop what has expired, then answer from the bucket of the filter, sorted by peer id and truncated. */
    method Discover(want: Option<string>, tags: seq<string>, limit: nat, now: nat) returns (out: seq<Registration>)
      requires Valid()
      modifies this
      ensures Valid() && nodes == Live(old(nodes), now)
      ensures exists full :: Lists(full, if BlankFilter(want) then {} else Scan(nodes, want, tags)) && out == Truncated(full, limit)
                && out <= full && |out| == if limit == 0 then |full| else Min(limit, |full|)
    {
      hide IndexMatches, Wanted, Lists, Trim;
      PurgeExpired(now);
      FoundByIndex(nodes, skillIndex, want, tags);
      out := Query(want, tags, limit);
    }

    method Register(r: Registration, now: nat)
      requires Valid()
      modifies this
      ensures Valid() && nodes == Live(old(nodes), now)[r.peer := r]
    {
      hide IndexMatches;
      PurgeExpired(now);
      InsertRegistration(r);
    }

    method UpsertNode(peer: string, name: string, description: string, ttl: nat, now: nat)
      requires Valid()
      modifies this
      ensures Valid() && nodes == Live(old(nodes), now)[peer := Refreshed(Live(old(nodes), now), peer, name, description, now + ttl)]
      ensures RefreshesOnly(Live(old(nodes), now), nodes, peer, name, description, now + ttl)
      ensures nodes[peer].skills == SkillsOf(Live(old(nodes), now), peer)
    {
      hide IndexMatches, Trim, Refreshed, RefreshesOnly, Live;
      LiveMatches(nodes, now);
      PurgeExpired(now);
      ghost var live := nodes;
      var r := Refreshed(nodes, peer, name, description, now + ttl);
      RefreshedMeans(live, peer, name, description, now + ttl, r.skills);
      InsertRegistration(r);
    }

    /** Merge skills into a registration without dropping existing ones. */
    method AddSkills(peer: string, skills: seq<Skill>, name: string, description: string, ttl: nat, now: nat)
      requires Valid()
      modifies this
      ensures Valid()
      ensures var r := Refreshed(Live(old(nodes), now), peer, name, description, now + ttl);
              nodes == Live(old(nodes), now)[peer := r.(skills := Merge(r.skills, skills))]
      ensures RefreshesOnly(Live(old(nodes), now), nodes, peer, name, description, now + ttl)
      ensures forall id :: Find(nodes[peer].skills, id)
                == if Trim(id) != "" && LastWith(skills, id).Some? then LastWith(skills, id)
                   else Find(SkillsOf(Live(old(nodes), now), peer), id)
    {
      hide IndexMatches, Trim, Refreshed, RefreshesOnly, Live, Find, LastWith;
      LiveMatches(nodes, now);
      ghost var had := SkillsOf(Live(nodes, now), peer);
      forall id ensures Find(Merge(had, skills), id)
                == if Trim(id) != "" && LastWith(skills, id).Some? then LastWith(skills, id) else Find(had, id)
      {
        MergeOverrides(had, skills, id);
      }
      if skills == [] {
        UpsertNode(peer, name, description, ttl, now);
        return;
      }
      PurgeExpired(now);
      var r := Refreshed(nodes, peer, name, description, now + ttl);
      var merged := MergeSkills(r.skills, skills);
      RefreshedMeans(nodes, peer, name, description, now + ttl, merged);
      InsertRegistration(r.(skills := merged));
    }

    /** Remove some skills, or the peer when no ids are given or none of its skills are left. */
    method Unregister(peer: string, ids: seq<string>, now: nat) returns (known: bool)
      requires Valid()
      modifies this
      ensures Valid()
      ensures known <==> ids == [] || peer in Live(old(nodes), now)
      ensures var live := Live(old(nodes), now);
              nodes == if peer !in live then live
                       else if ids == [] || Dropped(live[peer].skills, ids) == [] then live - {peer}
                       else live[peer := live[peer].(skills := Dropped(live[peer].skills, ids))]
    {
      hide IndexMatches;
      PurgeExpired(now);
      if ids == [] {
        var _ := RemovePeer(peer);
        return true;
      }
      if peer !in nodes {
        return false;
      }
      var r := nodes[peer];
      var left := Dropped(r.skills, ids);
      if left == [] {
        var _ := RemovePeer(peer);
      } else {
        InsertRegistration(r.(skills := left));
      }
      return true;
    }
  }

  /** What the index finds is what a scan finds, except that a whitespace-only filter has no bucket. */
  lemma FoundByIndex(nodes: Nodes, index: Index, want: Option<string>, tags: seq<string>)
    requires IndexMatches(nodes, index)
    ensures ByIndex(nodes, index, want, tags) == if BlankFilter(want) then {} else Scan(nodes, want, tags)
  {
    hide Trim, HasTags;
    if want.Some? && want.value != "" && !BlankFilter(want) {
      forall p | p in nodes && Wanted(nodes[p], want, tags) ensures p in Candidates(nodes, index, want) {
        assert Indexed(nodes[p], want.value);
      }
    }
  }

  /** Filter and collect, in whatever order the map yields the peers. */
  method Collect(nodes: Nodes, peers: set<string>, want: Option<string>, tags: seq<string>) returns (found: seq<Registration>)
    requires PeersMatch(nodes)
    ensures forall i, j :: 0 <= i < j < |found| ==> found[i].peer != found[j].peer
    ensures forall r :: r in found <==> r.peer in peers && r.peer in nodes && r == nodes[r.peer] && Wanted(r, want, tags)
  {
    hide Wanted;
    var todo := peers;
    found := [];
    while todo != {}
      invariant todo <= peers
      invariant forall i, j :: 0 <= i < j < |found| ==> found[i].peer != found[j].peer
      invariant forall r :: r in found <==>
                  r.peer in peers - todo && r.peer in nodes && r == nodes[r.peer] && Wanted(r, want, tags)
      decreases todo
    {
      var p :| p in todo;
      if p in nodes && Wanted(nodes[p], want, tags) {
        found := found + [nodes[p]];
      }
      todo := todo - {p};
    }
  }

  lemma StartIndexing(nodes: Nodes, index: Index, r: Registration)
    requires IndexMatches(nodes, index)
    ensures PartlyIndexed(nodes, index, r, 0)
  {
    hide Indexed, Trim;
  }

  // ---------- Discovery against a full scan ----------

  /** A registry, index included, where a scan for a whitespace-only skill id finds a peer that the index cannot name. */
  lemma BlankFilterMisses(want: Option<string>) returns (nodes: Nodes, index: Index)
    requires BlankFilter(want)
    ensures PeersMatch(nodes) && IndexMatches(nodes, index)
    ensures ByIndex(nodes, index, want, []) == {} != Scan(nodes, want, [])
  {
    hide Trim;
    var r := Registration("p", [Skill(want.value, "", [])], "", "", [], 1);
    nodes, index := map["p" := r], map[];
    assert r.skills[0].id == want.value;
    assert Wanted(nodes["p"], want, []);
    assert r in Scan(nodes, want, []);
  }

  /**
   The indexed lookup agrees with a full scan of the registrations, in every registry whose index is
   the relation of its nodes and for all tags, iff the filter is not whitespace-only.
   */
  lemma DiscoverIsScanIff(want: Option<string>)
    ensures (forall nodes: Nodes, index: Index, tags :: PeersMatch(nodes) && IndexMatches(nodes, index) ==>
               ByIndex(nodes, index, want, tags) == Scan(nodes, want, tags))
       <==> !BlankFilter(want)
  {
    hide IndexMatches, PeersMatch, ByIndex, Scan, Trim;
    if BlankFilter(want) {
      var nodes, index := BlankFilterMisses(want);
    } else {
      forall nodes: Nodes, index: Index, tags | PeersMatch(nodes) && IndexMatches(nodes, index)
        ensures ByIndex(nodes, index, want, tags) == Scan(nodes, want, tags)
      {
        FoundByIndex(nodes, index, want, tags);
      }
    }
  }

  /** A discovery answer is determined: two listings truncated to one limit are equal. */
  lemma DiscoverIsDeterministic(regs: set<Registration>, a: seq<Registration>, b: seq<Registration>, limit: nat)
    requires Lists(a, regs) && Lists(b, regs)
    ensures Truncated(a, limit) == Truncated(b, limit)
  {
    ListingIsUnique(a, b, regs);
  }

  /** Unregistering keeps exactly the skills whose id was not named, in order. */
  lemma {:induction false} DroppedKeepsOthers(skills: seq<Skill>, ids: seq<string>, skill: Skill)
    ensures skill in Dropped(skills, ids) <==> skill in skills && skill.id !in ids
  {
    if skills != [] {
      var n := |skills| - 1;
      DroppedKeepsOthers(skills[..n], ids, skill);
      assert skills == skills[..n] + [skills[n]];
    }
  }

  /** ... and in their order: dropping works on any split of the list. */
  lemma {:induction false} DroppedSplits(a: seq<Skill>, b: seq<Skill>, ids: seq<string>)
    ensures Dropped(a + b, ids) == Dropped(a, ids) + Dropped(b, ids)
  {
    if b == [] {
      assert a + b == a;
    } else {
      var n := |b| - 1;
      assert (a + b)[..|a + b| - 1] == a + b[..n];
      DroppedSplits(a, b[..n], ids);
    }
  }
}
