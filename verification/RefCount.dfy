/** TPt, the counting smart pointer of tools/uisp/src/Global.h. */
module RefCount {

  // ---- Who holds what, as a map from pointers to targets ----

  ghost function Holders<P, R>(m: map<P, R>, r: R): set<P> {
    set p | p in m && m[p] == r
  }

  /** How many pointers of m hold r. */
  ghost function Count<P, R>(m: map<P, R>, r: R): nat {
    |Holders(m, r)|
  }

  lemma CountUpdate<P, R>(m: map<P, R>, p: P, a: R, r: R)
    ensures Count(m[p := a], r)
         == Count(m, r) - (if p in m && m[p] == r then 1 else 0) + (if a == r then 1 else 0)
  {
    var before, after := Holders(m, r), Holders(m[p := a], r);
    assert p in before <==> p in m && m[p] == r;
    if a == r {
      assert after == (before - {p}) + {p};
    } else {
      assert after == before - {p};
    }
    hide Holders;
    CardWithout(before, p);
  }

  lemma CardWithout<T>(s: set<T>, x: T)
    ensures |s - {x}| == |s| - if x in s then 1 else 0
    ensures |s - {x} + {x}| == |s - {x}| + 1
  {
    if x !in s {
      assert s - {x} == s;
    }
  }

  lemma CountRemove<P, R>(m: map<P, R>, p: P, r: R)
    requires p in m
    ensures Count(m - {p}, r) == Count(m, r) - (if m[p] == r then 1 else 0)
  {
    assert Holders(m - {p}, r) == Holders(m, r) - {p};
  }

  /** What some pointer holds has a positive count. */
  lemma CountZero<P, R>(m: map<P, R>, r: R)
    ensures Count(m, r) == 0 <==> forall p :: p in m ==> m[p] != r
  {
    if Count(m, r) == 0 {
      forall p | p in m ensures m[p] != r {
        assert p !in Holders(m, r);
      }
    } else {
      var p :| p in Holders(m, r);
    }
  }

  lemma CountTwo<P, R>(m: map<P, R>, p: P, q: P)
    requires p in m && q in m && p != q && m[p] == m[q]
    ensures Count(m, m[p]) >= 2
  {
    assert {p, q} <= Holders(m, m[p]);
    SubsetCard({p, q}, Holders(m, m[p]));
  }

  lemma {:induction false} SubsetCard<T>(s: set<T>, t: set<T>)
    requires s <= t
    ensures |s| <= |t|
    decreases |s|
  {
    if s != {} {
      var x :| x in s;
      SubsetCard(s - {x}, t - {x});
    }
  }

  /** A counted object. alive becomes false when it is deleted; held records that a pointer once held it. */
  class TRec {
    var CRef: int
    ghost var alive: bool
    ghost var held: bool

    constructor ()
      ensures CRef == 0 && alive && !held
    {
      CRef, alive, held := 0, true, false;
    }
  }

  /** All pointers in existence with what they hold, and all objects ever made. */
  class World {
    ghost var holds: map<TPt, TRec?>
    ghost var recs: set<TRec>

    /** The count of every live object is the number of pointers that hold it; no pointer holds a deleted
        object; and an object that was ever held is alive just as long as some pointer holds it. */
    ghost predicate Inv()
      reads this, holds.Keys, recs
    {
      && (forall p :: p in holds ==> p.Addr == holds[p] && (p.Addr != null ==> p.Addr in recs && p.Addr.alive))
      && (forall r :: r in recs ==>
            && (r.alive ==> r.CRef == Count(holds, r))
            && (r.held ==> (r.alive <==> Count(holds, r) > 0))
            && (!r.held ==> r.alive && Count(holds, r) == 0))
    }

    constructor ()
      ensures Inv() && holds == map[] && recs == {}
    {
      holds, recs := map[], {};
    }

    /** A new object, not yet held. */
    method NewRec() returns (r: TRec)
      requires Inv()
      modifies this
      ensures Inv() && fresh(r) && r.alive && recs == old(recs) + {r} && holds == old(holds)
    {
      r := new TRec();
      recs := recs + {r};
      assert forall p :: p in holds ==> p.Addr != r;
      CountZero(holds, r);
    }
  }

  class TPt {
    var Addr: TRec?

    /** MkRef */
    method MkRef()
      modifies Addr
      ensures Addr != null ==> && Addr.CRef == old(Addr.CRef) + 1 && Addr.held && Addr.alive == old(Addr.alive)
    {
      if Addr != null {
        Addr.CRef := Addr.CRef + 1;
        Addr.held := true;
      }
    }

    /** UnRef: the object goes when its count comes down to 0. */
    method UnRef()
      requires Addr != null ==> Addr.alive
      modifies Addr
      ensures Addr != null ==> && Addr.CRef == old(Addr.CRef) - 1 && Addr.held == old(Addr.held)
                               && Addr.alive == (Addr.CRef != 0)
    {
      if Addr != null {
        Addr.CRef := Addr.CRef - 1;
        if Addr.CRef == 0 {
          Addr.alive := false;  // delete
        }
      }
    }

    /** TPt(TRec*), and TPt() with a null pointer. */
    constructor FromRec(ghost w: World, a: TRec?)
      requires w.Inv() && (a != null ==> a in w.recs && a.alive)
      modifies w, a
      ensures w.Inv() && w.holds == old(w.holds)[this := a] && w.recs == old(w.recs)
    {
      Addr := a;
      new;
      assert this !in w.holds;
      MkRef();
      w.holds := w.holds[this := a];
      Recount(old(w.holds), this, a, w.recs);
    }

    /** TPt(const TPt&) */
    constructor FromPt(ghost w: World, pt: TPt)
      requires w.Inv() && pt in w.holds
      modifies w, pt.Addr
      ensures w.Inv() && w.holds == old(w.holds)[this := old(w.holds)[pt]] && w.recs == old(w.recs)
    {
      Addr := pt.Addr;
      new;
      assert this !in w.holds;
      MkRef();
      w.holds := w.holds[this := pt.Addr];
      Recount(old(w.holds), this, pt.Addr, w.recs);
    }

    /** The destructor. */
    method Destroy(ghost w: World)
      requires w.Inv() && this in w.holds
      modifies w, Addr
      ensures w.Inv() && w.holds == old(w.holds) - {this} && w.recs == old(w.recs)
    {
      CountZero(w.holds, Addr);
      UnRef();
      w.holds := w.holds - {this};
      forall r | r in w.recs
        ensures Count(w.holds, r) == Count(old(w.holds), r) - (if old(w.holds)[this] == r then 1 else 0)
      {
        CountRemove(old(w.holds), this, r);
      }
      CountZero(w.holds, old(Addr));
    }

    /** operator=(TRec*) */
    method AssignRec(ghost w: World, a: TRec?)
      requires w.Inv() && this in w.holds && (a != null ==> a in w.recs && a.alive)
      modifies w, this, Addr, a
      ensures w.Inv() && w.holds == old(w.holds)[this := a] && w.recs == old(w.recs)
    {
      CountZero(w.holds, Addr);
      Recount(w.holds, this, a, w.recs);
      if Addr != a {
        UnRef();
        Addr := a;
        MkRef();
      }
      w.holds := w.holds[this := a];
      CountZero(w.holds, old(Addr));
    }

    /** operator=(const TPt&) */
    method AssignPt(ghost w: World, pt: TPt)
      requires w.Inv() && this in w.holds && pt in w.holds
      modifies w, this, Addr, pt.Addr
      ensures w.Inv() && w.holds == old(w.holds)[this := old(w.holds)[pt]] && w.recs == old(w.recs)
    {
      hide Count, Holders;
      if this != pt {
        CountZero(w.holds, Addr);
        CountZero(w.holds, pt.Addr);
        if Addr == pt.Addr {
          CountTwo(w.holds, this, pt);
        }
        Recount(w.holds, this, pt.Addr, w.recs);
        UnRef();
        Addr := pt.Addr;
        MkRef();
        w.holds := w.holds[this := Addr];
        CountZero(w.holds, old(Addr));
      } else {
        assert w.holds[this := Addr] == w.holds;
      }
    }
  }

  lemma Recount(m: map<TPt, TRec?>, p: TPt, a: TRec?, recs: set<TRec>)
    ensures forall r :: r in recs ==>
              Count(m[p := a], r) == Count(m, r) - (if p in m && m[p] == r then 1 else 0) + (if a == r then 1 else 0)
  {
    forall r | r in recs
      ensures Count(m[p := a], r) == Count(m, r) - (if p in m && m[p] == r then 1 else 0) + (if a == r then 1 else 0)
    {
      CountUpdate(m, p, a, r);
    }
  }
}
