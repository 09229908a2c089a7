/** Skills, registrations and the pure parts of the registry: ordering, matching, merging. */
module Skills {
  import opened Basics
  import opened Text

  datatype Skill = Skill(id: string, description: string, tags: seq<string>)

  datatype Registration = Registration(
    peer: string, skills: seq<Skill>, name: string, description: string,
    features: seq<string>, expiresAt: nat)

  // ---------- Order on peer ids ----------

  /** Lexicographic order by code point, which is also the byte order of the UTF-8 encoding. */
  predicate Less(a: string, b: string) {
    if b == [] then false
    else if a == [] then true
    else a[0] < b[0] || (a[0] == b[0] && Less(a[1..], b[1..]))
  }

  lemma {:induction false} LessTotal(a: string, b: string)
    ensures a == b || Less(a, b) || Less(b, a)
    ensures Less(a, b) ==> !Less(b, a) && a != b
  {
    if a != [] && b != [] {
      LessTotal(a[1..], b[1..]);
      if a[0] == b[0] {
        assert a == [a[0]] + a[1..] && b == [b[0]] + b[1..];
      }
    }
  }

  lemma {:induction false} LessTransitive(a: string, b: string, c: string)
    requires Less(a, b) && Less(b, c)
    ensures Less(a, c)
  {
    if a != [] && a[0] == b[0] && b[0] == c[0] {
      LessTransitive(a[1..], b[1..], c[1..]);
    }
  }

  /** The first difference decides, and a proper prefix comes first. */
  lemma {:induction false} LessByFirstDifference(a: string, b: string)
    ensures Less(a, b) <==> exists i :: 0 <= i <= |a| && i < |b| && a[..i] == b[..i] && (i == |a| || a[i] < b[i])
  {
    if a != [] && b != [] && a[0] == b[0] {
      var x, y := a[1..], b[1..];
      LessByFirstDifference(x, y);
      if i :| 0 <= i <= |x| && i < |y| && x[..i] == y[..i] && (i == |x| || x[i] < y[i]) {
        assert a[..i + 1] == [a[0]] + x[..i] && b[..i + 1] == [b[0]] + y[..i];
      }
      if i :| 0 <= i <= |a| && i < |b| && a[..i] == b[..i] && (i == |a| || a[i] < b[i]) {
        assert x[..i - 1] == a[..i][1..] && y[..i - 1] == b[..i][1..];
      }
    } else if a != [] && b != [] {
      assert a[..0] == b[..0];
      assert forall i :: 0 < i <= |a| && i < |b| ==> a[..i][0] != b[..i][0];
    } else {
      assert a[..0] == b[..0];
    }
  }

  /** Strictly increasing by peer id. */
  ghost predicate Ascending(s: seq<Registration>) {
    forall i, j :: 0 <= i < j < |s| ==> Less(s[i].peer, s[j].peer)
  }

  ghost predicate Lists(s: seq<Registration>, regs: set<Registration>) {
    Ascending(s) && forall r :: r in s <==> r in regs
  }

  /** A set of registrations has only one ascending listing. */
  lemma {:induction false} ListingIsUnique(s: seq<Registration>, t: seq<Registration>, regs: set<Registration>)
    requires Lists(s, regs) && Lists(t, regs)
    ensures s == t
  {
    assert forall i :: 0 <= i < |t| ==> t[i] in s;
    assert forall i :: 0 <= i < |s| ==> s[i] in t;
    if s != [] {
      var n, m := |s| - 1, |t| - 1;
      assert t[m] in s && s[n] in t;
      LastIsGreatest(s, t[m]);
      LastIsGreatest(t, s[n]);
      LessTotal(s[n].peer, t[m].peer);
      DropLast(s, regs);
      DropLast(t, regs);
      ListingIsUnique(s[..n], t[..m], regs - {s[n]});
      assert s == s[..n] + [s[n]] && t == t[..m] + [t[m]];
    }
  }

  lemma LastIsGreatest(s: seq<Registration>, r: Registration)
    requires Ascending(s) && r in s
    ensures r == s[|s| - 1] || Less(r.peer, s[|s| - 1].peer)
  {
  }

  lemma DropLast(s: seq<Registration>, regs: set<Registration>)
    requires Lists(s, regs) && s != []
    ensures Lists(s[..|s| - 1], regs - {s[|s| - 1]})
  {
    var n := |s| - 1;
    LessTotal(s[n].peer, s[n].peer);
    assert s == s[..n] + [s[n]];
    assert s[n] !in s[..n];
  }

  /** `sort_by` on registrations of distinct peers. */
  method SortByPeer(regs: seq<Registration>) returns (sorted: seq<Registration>)
    requires forall i, j :: 0 <= i < j < |regs| ==> regs[i].peer != regs[j].peer
    ensures Ascending(sorted) && forall r :: r in sorted <==> r in regs
  {
    sorted := [];
    for n := 0 to |regs|
      invariant Ascending(sorted)
      invariant forall r :: r in sorted <==> r in regs[..n]
    {
      assert regs[..n + 1] == regs[..n] + [regs[n]];
      assert forall r :: r in sorted ==> r.peer != regs[n].peer;
      sorted := InsertSorted(sorted, regs[n]);
    }
    assert regs[..|regs|] == regs;
  }

  method InsertSorted(s: seq<Registration>, r: Registration) returns (t: seq<Registration>)
    requires Ascending(s) && forall q :: q in s ==> q.peer != r.peer
    ensures Ascending(t) && forall q :: q in t <==> q in s || q == r
  {
    hide Ascending;
    var i := |s|;
    while i > 0 && Less(r.peer, s[i - 1].peer)
      invariant 0 <= i <= |s|
      invariant forall j :: i <= j < |s| ==> Less(r.peer, s[j].peer)
    {
      i := i - 1;
    }
    PrefixBelow(s, r, i);
    t := s[..i] + [r] + s[i..];
    InsertedAscending(s, r, i);
    assert s == s[..i] + s[i..];
  }

  lemma InsertedAscending(s: seq<Registration>, r: Registration, i: nat)
    requires i <= |s| && Ascending(s)
    requires forall j :: 0 <= j < i ==> Less(s[j].peer, r.peer)
    requires forall j :: i <= j < |s| ==> Less(r.peer, s[j].peer)
    ensures Ascending(s[..i] + [r] + s[i..])
  {
  }

  lemma PrefixBelow(s: seq<Registration>, r: Registration, i: nat)
    requires i <= |s| && Ascending(s) && forall q :: q in s ==> q.peer != r.peer
    requires i > 0 ==> !Less(r.peer, s[i - 1].peer)
    ensures forall j :: 0 <= j < i ==> Less(s[j].peer, r.peer)
  {
    if i > 0 {
      LessTotal(r.peer, s[i - 1].peer);
      forall j | 0 <= j < i ensures Less(s[j].peer, r.peer) {
        if j < i - 1 { LessTransitive(s[j].peer, s[i - 1].peer, r.peer); }
      }
    }
  }

  // ---------- Matching ----------

  predicate HasTags(skill: Skill, tags: seq<string>) {
    forall i :: 0 <= i < |tags| ==> tags[i] in skill.tags
  }

  /** One and the same skill must meet the id filter and all the tags. */
  predicate RegistrationMatches(r: Registration, want: Option<string>, tags: seq<string>) {
    exists i :: 0 <= i < |r.skills|
      && (want.None? || want.value == "" || r.skills[i].id == want.value)
      && (tags == [] || HasTags(r.skills[i], tags))
  }

  predicate HasSkill(r: Registration, id: string) {
    exists i :: 0 <= i < |r.skills| && r.skills[i].id == id
  }

  // ---------- Merging ----------

  function IndexOf(skills: seq<Skill>, id: string): nat
    ensures IndexOf(skills, id) <= |skills|
  {
    if skills == [] || skills[0].id == id then 0 else 1 + IndexOf(skills[1..], id)
  }

  /** The first skill with this id, which is the one a reader sees. */
  function Find(skills: seq<Skill>, id: string): Option<Skill> {
    var i := IndexOf(skills, id);
    if i < |skills| then Some(skills[i]) else None
  }

  function MergeOne(skills: seq<Skill>, skill: Skill): seq<Skill> {
    var i := IndexOf(skills, skill.id);
    if Trim(skill.id) == "" then skills
    else if i < |skills| then skills[i := skill]
    else skills + [skill]
  }

  function Merge(existing: seq<Skill>, incoming: seq<Skill>): seq<Skill> {
    if incoming == [] then existing
    else MergeOne(Merge(existing, incoming[..|incoming| - 1]), incoming[|incoming| - 1])
  }

  /** The last incoming skill with this id. */
  function LastWith(skills: seq<Skill>, id: string): Option<Skill> {
    if skills == [] then None
    else if skills[|skills| - 1].id == id then Some(skills[|skills| - 1])
    else LastWith(skills[..|skills| - 1], id)
  }

  lemma {:induction false} IndexOfIsFirst(skills: seq<Skill>, id: string)
    ensures var i := IndexOf(skills, id);
            && (forall j :: 0 <= j < i ==> skills[j].id != id)
            && (i < |skills| ==> skills[i].id == id)
  {
    if skills != [] && skills[0].id != id {
      IndexOfIsFirst(skills[1..], id);
    }
  }

  lemma IndexOfUnique(skills: seq<Skill>, id: string, i: nat)
    requires i <= |skills| && (forall j :: 0 <= j < i ==> skills[j].id != id) && (i < |skills| ==> skills[i].id == id)
    ensures IndexOf(skills, id) == i
  {
    IndexOfIsFirst(skills, id);
  }

  lemma FindAfterMergeOne(skills: seq<Skill>, skill: Skill, id: string)
    ensures Find(MergeOne(skills, skill), id)
         == if id == skill.id && Trim(id) != "" then Some(skill) else Find(skills, id)
  {
    var merged := MergeOne(skills, skill);
    IndexOfIsFirst(skills, skill.id);
    IndexOfIsFirst(skills, id);
    IndexOfIsFirst(merged, id);
    if Trim(skill.id) != "" {
      if id == skill.id {
        IndexOfUnique(merged, id, IndexOf(skills, id));
      } else if IndexOf(skills, id) < |skills| {
        IndexOfUnique(merged, id, IndexOf(skills, id));
      } else {
        IndexOfUnique(merged, id, |merged|);
      }
    }
  }

  /** Merging is an override by id: the last non-blank incoming skill wins, everything else is kept. */
  lemma {:induction false} MergeOverrides(existing: seq<Skill>, incoming: seq<Skill>, id: string)
    ensures Find(Merge(existing, incoming), id)
         == if Trim(id) != "" && LastWith(incoming, id).Some? then LastWith(incoming, id) else Find(existing, id)
  {
    hide Find, MergeOne, Trim;
    if incoming != [] {
      var n := |incoming| - 1;
      MergeOverrides(existing, incoming[..n], id);
      FindAfterMergeOne(Merge(existing, incoming[..n]), incoming[n], id);
    }
  }

  /** Every existing skill keeps its place, under its id, and what is appended is new to the list and not blank. */
  lemma {:induction false} MergeKeepsPlaces(existing: seq<Skill>, incoming: seq<Skill>)
    ensures var merged := Merge(existing, incoming);
            && |existing| <= |merged|
            && (forall i :: 0 <= i < |existing| ==> merged[i].id == existing[i].id)
            && (forall i :: |existing| <= i < |merged| ==>
                  Trim(merged[i].id) != "" && forall j :: 0 <= j < i ==> merged[j].id != merged[i].id)
  {
    hide Trim, IndexOf;
    if incoming != [] {
      var n := |incoming| - 1;
      MergeKeepsPlaces(existing, incoming[..n]);
      IndexOfIsFirst(Merge(existing, incoming[..n]), incoming[n].id);
    }
  }

  /** `merge_skills`: for each incoming skill, replace the first namesake or append. */
  method MergeSkills(existing: seq<Skill>, incoming: seq<Skill>) returns (skills: seq<Skill>)
    ensures skills == Merge(existing, incoming)
  {
    hide Trim;
    skills := existing;
    for n := 0 to |incoming|
      invariant skills == Merge(existing, incoming[..n])
    {
      assert incoming[..n + 1][..n] == incoming[..n];
      var skill := incoming[n];
      if Trim(skill.id) != "" {
        var i := 0;
        while i < |skills| && skills[i].id != skill.id
          invariant i <= |skills| && forall j :: 0 <= j < i ==> skills[j].id != skill.id
        {
          i := i + 1;
        }
        IndexOfUnique(skills, skill.id, i);
        if i < |skills| {
          skills := skills[i := skill];
        } else {
          skills := skills + [skill];
        }
      }
    }
    assert incoming[..|incoming|] == incoming;
  }
}
