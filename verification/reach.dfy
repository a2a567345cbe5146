/** Every company below a root, whatever the percentages: the breadth-first
    walk of the detail view that collects the companies whose officers count
    as related parties. Unlike the path enumeration it keeps one visited set
    of IDs for the whole walk, so each company is expanded at most once. */
module Reach {
  import opened Base
  import opened Records
  import opened Ownership

  /** Some active company of the table carries the ID. */
  predicate ActiveId(db: Store, x: int) {
    exists c :: c in db.companies && IsActive(c) && c.id == x
  }

  /** The companies the edges lead to, in order. */
  function Targets(es: seq<Edge>): (r: seq<Company>)
    ensures |r| == |es|
    ensures forall i :: 0 <= i < |es| ==> r[i] == es[i].company
  {
    if |es| == 0 then [] else [es[0].company] + Targets(es[1..])
  }

  /** The walk's state: the IDs visited, in the order they were first met,
      and the queue of companies still to expand. */
  datatype Frontier = Frontier(seen: seq<int>, queue: seq<Company>)

  /** Meet `cs` in order: a company whose ID was not visited yet is marked
      visited and queued. With `needId`, a company without an ID (0) is skipped.
      The IDs visited here are those of the companies queued here, in order. */
  function Visit(cs: seq<Company>, needId: bool, f: Frontier): (r: Frontier)
    ensures f.seen <= r.seen && f.queue <= r.queue
    ensures |r.seen| - |f.seen| == |r.queue| - |f.queue|
    ensures forall i :: |f.queue| <= i < |r.queue| ==>
              r.queue[i] in cs && r.queue[i].id == r.seen[i - |f.queue| + |f.seen|]
    decreases |cs|
  {
    if |cs| == 0 then f
    else
      var c := cs[0];
      var next := if (needId && c.id == 0) || c.id in f.seen then f else Frontier(f.seen + [c.id], f.queue + [c]);
      var r := Visit(cs[1..], needId, next);
      VisitStep(cs, f, next, r);
      r
  }

  /** The visit of the first company followed by the visit of the rest keeps
      the queue and the visited IDs aligned. */
  lemma VisitStep(cs: seq<Company>, f: Frontier, next: Frontier, r: Frontier)
    requires |cs| > 0
    requires next == f || next == Frontier(f.seen + [cs[0].id], f.queue + [cs[0]])
    requires next.seen <= r.seen && next.queue <= r.queue
    requires |r.seen| - |next.seen| == |r.queue| - |next.queue|
    requires forall i :: |next.queue| <= i < |r.queue| ==>
               r.queue[i] in cs[1..] && r.queue[i].id == r.seen[i - |next.queue| + |next.seen|]
    ensures f.seen <= r.seen && f.queue <= r.queue
    ensures |r.seen| - |f.seen| == |r.queue| - |f.queue|
    ensures forall i :: |f.queue| <= i < |r.queue| ==>
              r.queue[i] in cs && r.queue[i].id == r.seen[i - |f.queue| + |f.seen|]
  {
    forall i | |f.queue| <= i < |r.queue|
      ensures r.queue[i] in cs && r.queue[i].id == r.seen[i - |f.queue| + |f.seen|]
    {
      if i < |next.queue| {
        assert r.queue[i] == next.queue[i] == cs[0];
        assert r.seen[i - |f.queue| + |f.seen|] == next.seen[|f.seen|] == cs[0].id;
      } else {
        assert r.queue[i] in cs[1..];
      }
    }
  }

  /** Visiting keeps the visited IDs distinct. */
  lemma {:induction false} VisitDistinct(cs: seq<Company>, needId: bool, f: Frontier)
    requires Distinct(f.seen)
    ensures Distinct(Visit(cs, needId, f).seen)
    decreases |cs|
  {
    if |cs| > 0 {
      var c := cs[0];
      var next := if (needId && c.id == 0) || c.id in f.seen then f else Frontier(f.seen + [c.id], f.queue + [c]);
      assert Distinct(next.seen);
      VisitDistinct(cs[1..], needId, next);
    }
  }

  /** Every company met, unless skipped for lacking an ID, ends up visited. */
  lemma {:induction false} VisitMeets(cs: seq<Company>, needId: bool, f: Frontier)
    ensures forall c :: c in cs && !(needId && c.id == 0) ==> c.id in Visit(cs, needId, f).seen
    decreases |cs|
  {
    if |cs| > 0 {
      var c := cs[0];
      var next := if (needId && c.id == 0) || c.id in f.seen then f else Frontier(f.seen + [c.id], f.queue + [c]);
      VisitMeets(cs[1..], needId, next);
      assert !(needId && c.id == 0) ==> c.id in next.seen;
    }
  }

  /** Membership read off the aligned contract of `Visit`: a queued company is
      an old one or one met here whose ID is visited, and a visited ID is an
      old one or the ID of a company queued here. */
  lemma VisitMembers(cs: seq<Company>, needId: bool, f: Frontier)
    ensures var r := Visit(cs, needId, f);
      forall c :: c in r.queue ==> c in f.queue || (c in cs && c.id in r.seen)
    ensures var r := Visit(cs, needId, f);
      forall x :: x in r.seen ==> x in f.seen || exists c :: c in r.queue && c in cs && c.id == x
  {
    var r := Visit(cs, needId, f);
    forall c | c in r.queue ensures c in f.queue || (c in cs && c.id in r.seen) {
      var i :| 0 <= i < |r.queue| && r.queue[i] == c;
      if i < |f.queue| {
        assert f.queue[i] == c;
      }
    }
    forall x | x in r.seen ensures x in f.seen || exists c :: c in r.queue && c in cs && c.id == x {
      var i :| 0 <= i < |r.seen| && r.seen[i] == x;
      if i < |f.seen| {
        assert f.seen[i] == x;
      } else {
        assert r.queue[i - |f.seen| + |f.queue|].id == x;
      }
    }
  }

  /** Every visited ID belongs to an active company of the table, and so does
      every queued company. */
  predicate Sound(db: Store, f: Frontier) {
    Distinct(f.seen) &&
    (forall x :: x in f.seen ==> ActiveId(db, x)) &&
    (forall c :: c in f.queue ==> c in db.companies && IsActive(c))
  }

  /** Visiting active companies of the table keeps the state sound. */
  lemma VisitSound(db: Store, cs: seq<Company>, needId: bool, f: Frontier)
    requires Sound(db, f)
    requires forall c :: c in cs ==> c in db.companies && IsActive(c)
    ensures Sound(db, Visit(cs, needId, f))
  {
    VisitDistinct(cs, needId, f);
    VisitMembers(cs, needId, f);
  }

  /** A sound state visits no more IDs than the table has. */
  lemma SoundBound(db: Store, f: Frontier)
    requires Sound(db, f)
    ensures |f.seen| <= |set c | c in db.companies :: c.id|
  {
    var ids := set c | c in db.companies :: c.id;
    forall i | 0 <= i < |f.seen| ensures f.seen[i] in ids {
      assert ActiveId(db, f.seen[i]);
    }
    DistinctBounded(f.seen, ids);
  }

  /** The companies an expansion meets: the targets of `getOwnedCompanies`. */
  function Owned(db: Store, c: Company): (r: seq<Company>)
    ensures forall x :: x in r ==> x in db.companies && IsActive(x)
  {
    var es := OwnedCompanies(db, c);
    var r := Targets(es);
    assert forall x :: x in r ==> exists i :: 0 <= i < |es| && x == es[i].company;
    r
  }

  /** The main loop: expand the first queued company, meeting its owned
      companies that have an ID, until the queue is empty. */
  function Drain(db: Store, f: Frontier): (r: seq<int>)
    requires Sound(db, f)
    ensures f.seen <= r && Distinct(r)
    ensures forall x :: x in r ==> ActiveId(db, x)
    decreases |set c | c in db.companies :: c.id| - |f.seen|, |f.queue|
  {
    if |f.queue| == 0 then f.seen
    else
      var c := f.queue[0];
      var next := Visit(Owned(db, c), true, Frontier(f.seen, f.queue[1..]));
      VisitSound(db, Owned(db, c), true, Frontier(f.seen, f.queue[1..]));
      SoundBound(db, f);
      SoundBound(db, next);
      Drain(db, next)
  }

  /** The first state: the active `ParentID` children of the root, checked
      against the visited set only, then the companies the root owns, which
      must also have an ID. */
  function Start(db: Store, root: Company): Frontier {
    Visit(Owned(db, root), true, Visit(IdChildren(db, root), false, Frontier([], [])))
  }

  /** Visiting keeps every visited ID queued when no company was expanded yet. */
  lemma VisitQueued(cs: seq<Company>, needId: bool, f: Frontier)
    requires forall x :: x in f.seen ==> exists c :: c in f.queue && c.id == x
    ensures forall x :: x in Visit(cs, needId, f).seen ==> exists c :: c in Visit(cs, needId, f).queue && c.id == x
  {
    var r := Visit(cs, needId, f);
    VisitMembers(cs, needId, f);
    forall x | x in r.seen ensures exists c :: c in r.queue && c.id == x {
      if x in f.seen {
        var c :| c in f.queue && c.id == x;
        assert c in r.queue;
      }
    }
  }

  /** The active `ParentID` children of the root. */
  function IdChildren(db: Store, root: Company): (r: seq<Company>)
    ensures forall c :: c in r <==> c in db.companies && IsIdChild(root, c)
    ensures forall c :: c in r ==> IsActive(c)
  {
    Filter(db.companies, (c: Company) => IsIdChild(root, c))
  }

  /** The first state is sound and every ID it visited is queued. */
  lemma StartSound(db: Store, root: Company)
    ensures Sound(db, Start(db, root))
    ensures forall x :: x in Start(db, root).seen ==> exists c :: c in Start(db, root).queue && c.id == x
  {
    var children := IdChildren(db, root);
    var f0 := Frontier([], []);
    var f1 := Visit(children, false, f0);
    assert Sound(db, f0);
    VisitSound(db, children, false, f0);
    VisitSound(db, Owned(db, root), true, f1);
    VisitQueued(children, false, f0);
    assert forall x :: x in f1.seen ==> exists c :: c in f1.queue && c.id == x;
    VisitQueued(Owned(db, root), true, f1);
  }

  /** The first state holds every `ParentID` child and every owned company with an ID. */
  lemma StartMeets(db: Store, root: Company)
    ensures forall c :: c in db.companies && IsIdChild(root, c) ==> c.id in Start(db, root).seen
    ensures forall c :: c in Owned(db, root) && c.id != 0 ==> c.id in Start(db, root).seen
  {
    var children := IdChildren(db, root);
    var f0 := Frontier([], []);
    var f1 := Visit(children, false, f0);
    var f2 := Visit(Owned(db, root), true, f1);
    VisitMeets(children, false, f0);
    VisitMeets(Owned(db, root), true, f1);
    assert f1.seen <= f2.seen;
  }

  /* ---------------------------------------------------------------- */
  /* Soundness                                                         */
  /* ---------------------------------------------------------------- */

  /** Where the walk starts: an active `ParentID` child of the root, or a
      company the root owns. */
  predicate Seed(db: Store, root: Company, x: int) {
    (exists c :: c in db.companies && IsIdChild(root, c) && c.id == x) ||
    (exists c :: c in Owned(db, root) && c.id == x)
  }

  /** A company of the table with ID `y` owns a company with ID `x`. */
  predicate OwnsId(db: Store, y: int, x: int) {
    exists d, e :: d in db.companies && d.id == y && e in Owned(db, d) && e.id == x
  }

  /** `x` is a seed or owned under one of the IDs in `seen`. */
  predicate Fed(db: Store, root: Company, seen: seq<int>, x: int) {
    Seed(db, root, x) || exists j :: 0 <= j < |seen| && OwnsId(db, seen[j], x)
  }

  /** Every visited ID is a seed or owned under an ID visited before it. */
  predicate Justified(db: Store, root: Company, seen: seq<int>) {
    forall i :: 0 <= i < |seen| ==> Seed(db, root, seen[i]) || exists j :: 0 <= j < i && OwnsId(db, seen[j], seen[i])
  }

  /** Every queued company's ID was visited. */
  predicate QueueSeen(f: Frontier) {
    forall c :: c in f.queue ==> c.id in f.seen
  }

  /** Visiting companies fed by the IDs visited so far keeps every visited ID
      justified by the ones before it. */
  lemma VisitJustified(db: Store, root: Company, cs: seq<Company>, needId: bool, f: Frontier)
    requires Justified(db, root, f.seen)
    requires forall c :: c in cs ==> Fed(db, root, f.seen, c.id)
    ensures Justified(db, root, Visit(cs, needId, f).seen)
  {
    var r := Visit(cs, needId, f);
    forall i | |f.seen| <= i < |r.seen| ensures Fed(db, root, f.seen, r.seen[i]) {
      var q := i - |f.seen| + |f.queue|;
      assert r.queue[q] in cs && r.queue[q].id == r.seen[i];
    }
    JustifiedGrows(db, root, f.seen, r.seen);
  }

  /** Appending IDs each fed by the old ones keeps every ID justified. */
  lemma JustifiedGrows(db: Store, root: Company, s: seq<int>, t: seq<int>)
    requires Justified(db, root, s) && s <= t
    requires forall i :: |s| <= i < |t| ==> Fed(db, root, s, t[i])
    ensures Justified(db, root, t)
  {
    forall i | 0 <= i < |t|
      ensures Seed(db, root, t[i]) || exists j :: 0 <= j < i && OwnsId(db, t[j], t[i])
    {
      if !Seed(db, root, t[i]) {
        if i < |s| {
          assert t[i] == s[i];
          var j :| 0 <= j < i && OwnsId(db, s[j], s[i]);
          assert t[j] == s[j];
        } else {
          var j :| 0 <= j < |s| && OwnsId(db, s[j], t[i]);
          assert t[j] == s[j];
        }
      }
    }
  }

  /** Visiting keeps every queued company's ID visited. */
  lemma VisitQueueSeen(cs: seq<Company>, needId: bool, f: Frontier)
    requires QueueSeen(f)
    ensures QueueSeen(Visit(cs, needId, f))
  {
    var r := Visit(cs, needId, f);
    VisitMembers(cs, needId, f);
    forall c | c in r.queue ensures c.id in r.seen {
      if c in f.queue {
        assert c.id in f.seen;
      }
    }
  }

  /** The main loop keeps every visited ID justified. */
  lemma {:induction false} DrainJustified(db: Store, root: Company, f: Frontier)
    requires Sound(db, f) && QueueSeen(f) && Justified(db, root, f.seen)
    ensures Justified(db, root, Drain(db, f))
    decreases |set c | c in db.companies :: c.id| - |f.seen|, |f.queue|
  {
    if |f.queue| > 0 {
      var c := f.queue[0];
      var g := Frontier(f.seen, f.queue[1..]);
      var next := Visit(Owned(db, c), true, g);
      VisitSound(db, Owned(db, c), true, g);
      SoundBound(db, f);
      SoundBound(db, next);
      assert c in f.queue && c in db.companies;
      var k :| 0 <= k < |f.seen| && f.seen[k] == c.id;
      forall e | e in Owned(db, c) ensures Fed(db, root, f.seen, e.id) {
        assert OwnsId(db, f.seen[k], e.id);
      }
      VisitJustified(db, root, Owned(db, c), true, g);
      assert QueueSeen(g) by {
        forall q | q in g.queue ensures q.id in g.seen {
          assert q in f.queue;
        }
      }
      VisitQueueSeen(Owned(db, c), true, g);
      DrainJustified(db, root, next);
    }
  }

  /** The first state visits seeds only, and queues every company it visits. */
  lemma StartJustified(db: Store, root: Company)
    ensures Justified(db, root, Start(db, root).seen) && QueueSeen(Start(db, root))
  {
    var children := IdChildren(db, root);
    var f0 := Frontier([], []);
    var f1 := Visit(children, false, f0);
    VisitJustified(db, root, children, false, f0);
    VisitQueueSeen(children, false, f0);
    VisitJustified(db, root, Owned(db, root), true, f1);
    VisitQueueSeen(Owned(db, root), true, f1);
  }

  /** The IDs of every company below the root, in the order first met. */
  function ReachableIds(db: Store, root: Company): (r: seq<int>)
    ensures Distinct(r)
    ensures forall x :: x in r ==> ActiveId(db, x)
    ensures forall i :: 0 <= i < |r| ==> Seed(db, root, r[i]) || exists j :: 0 <= j < i && OwnsId(db, r[j], r[i])
  {
    StartSound(db, root);
    StartJustified(db, root);
    DrainJustified(db, root, Start(db, root));
    Drain(db, Start(db, root))
  }

  /** Each ID with its first active company of the table (the final `find`). */
  function Resolve(db: Store, ids: seq<int>): (r: seq<Company>)
    requires forall x :: x in ids ==> ActiveId(db, x)
    ensures |r| == |ids|
    ensures forall i :: 0 <= i < |r| ==> r[i].id == ids[i] && r[i] in db.companies && IsActive(r[i])
    ensures forall i :: 0 <= i < |r| ==> FirstActive(db.companies, ids[i], r[i])
  {
    if |ids| == 0 then []
    else
      var x := ids[0];
      assert ActiveById(db.companies, x).Some? by {
        assert ActiveId(db, x);
        var c :| c in db.companies && IsActive(c) && c.id == x;
        var i :| 0 <= i < |db.companies| && db.companies[i] == c;
      }
      [ActiveById(db.companies, x).value] + Resolve(db, ids[1..])
  }

  /** `getAllSubsidiaries` of the detail view: the companies below the root,
      each once, in the order the walk first met them. */
  function AllSubsidiaries(db: Store, root: Company): (r: seq<Company>)
    ensures forall i :: 0 <= i < |r| ==> r[i] in db.companies && IsActive(r[i])
    ensures forall i, j :: 0 <= i < j < |r| ==> r[i].id != r[j].id
    ensures forall i :: 0 <= i < |r| ==> Seed(db, root, r[i].id) || exists j :: 0 <= j < i && OwnsId(db, r[j].id, r[i].id)
  {
    var ids := ReachableIds(db, root);
    var r := Resolve(db, ids);
    assert forall i :: 0 <= i < |r| ==> r[i].id == ids[i];
    forall i | 0 <= i < |r| && !Seed(db, root, r[i].id)
      ensures exists j :: 0 <= j < i && OwnsId(db, r[j].id, r[i].id)
    {
      var j :| 0 <= j < i && OwnsId(db, ids[j], ids[i]);
      assert r[j].id == ids[j];
    }
    r
  }

  /* ---------------------------------------------------------------- */
  /* Closure                                                           */
  /* ---------------------------------------------------------------- */

  /** Every company the table lists under ID `x` has all its owned companies
      with an ID among `seen`. */
  predicate Covered(db: Store, x: int, seen: seq<int>) {
    forall c, e :: c in db.companies && c.id == x && e in Owned(db, c) && e.id != 0 ==> e.id in seen
  }

  /** The loop invariant: every queued company was visited, and every visited
      ID is either still queued or already expanded. */
  predicate Closing(db: Store, f: Frontier) {
    (forall c :: c in f.queue ==> c.id in f.seen) &&
    (forall x :: x in f.seen ==> (exists c :: c in f.queue && c.id == x) || Covered(db, x, f.seen))
  }

  /** Visiting more IDs keeps an ID covered. */
  lemma CoveredGrows(db: Store, x: int, s: seq<int>, t: seq<int>)
    requires Covered(db, x, s) && s <= t
    ensures Covered(db, x, t)
  {
    forall d, e | d in db.companies && d.id == x && e in Owned(db, d) && e.id != 0 ensures e.id in t {
      assert e.id in s;
    }
  }

  /** Expanding `c` covers its ID. */
  lemma ExpandCovers(db: Store, c: Company, g: Frontier)
    requires TableIdsUnique(db.companies) && c in db.companies
    ensures Covered(db, c.id, Visit(Owned(db, c), true, g).seen)
  {
    var next := Visit(Owned(db, c), true, g);
    VisitMeets(Owned(db, c), true, g);
    forall d, e | d in db.companies && d.id == c.id && e in Owned(db, d) && e.id != 0
      ensures e.id in next.seen
    {
      SameId(db.companies, d, c);
    }
  }

  /** A queued company other than the first stays queued after the expansion. */
  lemma StillQueued(f: Frontier, next: Frontier, q: Company)
    requires |f.queue| > 0 && q in f.queue && q.id != f.queue[0].id
    requires f.queue[1..] <= next.queue
    ensures q in next.queue
  {
    var i :| 0 <= i < |f.queue| && f.queue[i] == q;
    assert f.queue[1..][i - 1] == q;
  }

  /** Expanding the first queued company keeps the invariant, given unique table IDs. */
  lemma DrainStep(db: Store, f: Frontier)
    requires TableIdsUnique(db.companies)
    requires Sound(db, f) && Closing(db, f) && |f.queue| > 0
    ensures Closing(db, Visit(Owned(db, f.queue[0]), true, Frontier(f.seen, f.queue[1..])))
  {
    var c := f.queue[0];
    var g := Frontier(f.seen, f.queue[1..]);
    var next := Visit(Owned(db, c), true, g);
    VisitMembers(Owned(db, c), true, g);
    forall q | q in next.queue ensures q.id in next.seen {
      if q in g.queue {
        assert q in f.queue;
      }
    }
    forall x | x in next.seen
      ensures (exists q :: q in next.queue && q.id == x) || Covered(db, x, next.seen)
    {
      if x !in f.seen {
      } else if x == c.id {
        ExpandCovers(db, c, g);
      } else if exists q :: q in f.queue && q.id == x {
        var q :| q in f.queue && q.id == x;
        StillQueued(f, next, q);
      } else {
        CoveredGrows(db, x, f.seen, next.seen);
      }
    }
  }

  /** When the queue empties every visited ID has been expanded. */
  lemma {:induction false} DrainClosed(db: Store, f: Frontier)
    requires TableIdsUnique(db.companies)
    requires Sound(db, f) && Closing(db, f)
    ensures forall x :: x in Drain(db, f) ==> Covered(db, x, Drain(db, f))
    decreases |set c | c in db.companies :: c.id| - |f.seen|, |f.queue|
  {
    if |f.queue| > 0 {
      var c := f.queue[0];
      var g := Frontier(f.seen, f.queue[1..]);
      var next := Visit(Owned(db, c), true, g);
      VisitSound(db, Owned(db, c), true, g);
      SoundBound(db, f);
      SoundBound(db, next);
      DrainStep(db, f);
      DrainClosed(db, next);
    }
  }

  /** The subsidiaries are closed under ownership: with unique table IDs,
      every company owned by a listed company, if it has an ID, is listed;
      and every active `ParentID` child of the root and every company the
      root owns with an ID is listed. */
  lemma {:induction false} AllSubsidiariesClosed(db: Store, root: Company)
    requires TableIdsUnique(db.companies)
    ensures var ids := ReachableIds(db, root);
      forall c, e :: c in db.companies && c.id in ids && e in Owned(db, c) && e.id != 0 ==> e.id in ids
    ensures forall c :: c in db.companies && IsIdChild(root, c) ==> c.id in ReachableIds(db, root)
    ensures forall c :: c in Owned(db, root) && c.id != 0 ==> c.id in ReachableIds(db, root)
  {
    var f := Start(db, root);
    StartSound(db, root);
    StartMeets(db, root);
    assert Closing(db, f);
    DrainClosed(db, f);
    var ids := ReachableIds(db, root);
    forall c, e | c in db.companies && c.id in ids && e in Owned(db, c) && e.id != 0
      ensures e.id in ids
    {
      assert Covered(db, c.id, ids);
    }
  }

  /** With unique table IDs, resolving active IDs yields exactly the
      companies of the table carrying them. */
  lemma {:induction false} ResolveMembers(db: Store, ids: seq<int>)
    requires TableIdsUnique(db.companies)
    requires forall x :: x in ids ==> ActiveId(db, x)
    ensures forall c :: c in Resolve(db, ids) <==> c in db.companies && c.id in ids
  {
    var r := Resolve(db, ids);
    forall c | c in db.companies && c.id in ids ensures c in r {
      var i :| 0 <= i < |ids| && ids[i] == c.id;
      SameId(db.companies, c, r[i]);
    }
    forall c | c in r ensures c.id in ids {
      var i :| 0 <= i < |r| && r[i] == c;
    }
  }

  /** The listing resolves each visited ID, in order, to the first active
      company of the table with that ID; when the table's IDs are unique, a
      company is listed exactly when it is a company of the table whose ID the
      walk visited. */
  lemma AllSubsidiariesResolved(db: Store, root: Company)
    ensures var ids, r := ReachableIds(db, root), AllSubsidiaries(db, root);
      |r| == |ids| && forall i :: 0 <= i < |r| ==> FirstActive(db.companies, ids[i], r[i])
    ensures TableIdsUnique(db.companies) ==>
      forall c :: c in AllSubsidiaries(db, root) <==> c in db.companies && c.id in ReachableIds(db, root)
  {
    if TableIdsUnique(db.companies) {
      ResolveMembers(db, ReachableIds(db, root));
    }
  }
}
