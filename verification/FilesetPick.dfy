/** What fileset_pick gives its caller, told by the flags of the entries and the rotors alone. */
module FilesetPick {
  import opened FilesetState

  /** The flags that a pick asks for: FSE_FREE, or not that and FSE_EXISTS as wanted. */
  predicate Suits(e: Entry, req: Request) {
    match req
    case Unique(_) => e.free
    case ByIndex(noexist, _) => !e.free && e.present == !noexist
    case ByRotor(noexist, _) => !e.free && e.present == !noexist
  }

  /** `x` is an entry with the flags asked for. */
  ghost predicate Suitable(f: Files, req: Request, x: int) {
    x in f.entries && Suits(f.entries[x], req)
  }

  /** `q` is the least suitable index at or above `i`, or the least of all if there is none. */
  ghost predicate NextUp(f: Files, req: Request, i: int, q: int) {
    && Suitable(f, req, q)
    && if i <= q then forall y | Suitable(f, req, y) && i <= y :: q <= y
       else forall y | Suitable(f, req, y) :: y < i && q <= y
  }

  /** The index that a pick starts from is supplied, drawn, or in the rotor. */
  ghost predicate StartsAt(f: Files, req: Request, i: int) {
    match req
    case Unique(index) => i == index
    case ByIndex(_, index) => i == index
    case ByRotor(noexist, tid) =>
      if noexist then i == f.nerotor else if tid in f.exrotor then i == f.exrotor[tid] else i == 0
  }

  /** The rotor asked for, and only that, is now one past `q`. */
  ghost predicate Turned(f: Files, g: Files, req: Request, q: int) {
    if req.ByRotor? && req.noexist then g.nerotor == q + 1 && g.exrotor == f.exrotor
    else if req.ByRotor? then g.nerotor == f.nerotor && g.exrotor == f.exrotor[req.tid := q + 1]
    else g.nerotor == f.nerotor && g.exrotor == f.exrotor
  }

  /** What a pick gives, by the flags of the entries.  It waits exactly if there are entries and the
      idle count is 0.  It starts at the next suitable entry, busy or not, and turns the rotor past
      it; it gets the first idle one from there, going up and wrapping round, or nothing exactly if
      no suitable entry is idle. */
  ghost predicate Served(f: Files, req: Request, g: Files, r: Outcome) {
    && (r.Waits? <==> f.entries != map[] && f.idle == 0)
    && (r.Nothing? <==> !r.Waits? && forall x | Suitable(f, req, x) :: f.entries[x].busy)
    && (r.Picked? ==> Suitable(f, req, r.x) && !f.entries[r.x].busy)
    && (r.Waits? || (forall x :: !Suitable(f, req, x)) ==> g == f)
    && (!r.Waits? && (exists x :: Suitable(f, req, x)) ==>
          exists i, q :: StartsAt(f, req, i) && NextUp(f, req, i, q) && Turned(f, g, req, q)
            && (r.Picked? ==> forall y | Suitable(f, req, y) && !f.entries[y].busy :: !Passed(q, y, r.x)))
  }

  /** The tree that a pick draws from holds exactly the suitable entries. */
  lemma TreeSuits(f: Files, req: Request, x: int)
    requires Homed(f)
    ensures x in f.Tree(req.Home()) <==> Suitable(f, req, x)
  {
  }

  lemma NextIsRequested(f: Files, req: Request, i: int)
    requires Homed(f) && f.Tree(req.Home()) != {}
    ensures NextUp(f, req, i, Requested(f.Tree(req.Home()), i))
  {
    var T := f.Tree(req.Home());
    var q := Requested(T, i);
    forall x ensures x in T <==> Suitable(f, req, x) {
      TreeSuits(f, req, x);
    }
    hide Homed, Suits;
    if AtOrAbove(T, i) != {} {
      assert forall y | y in T && i <= y :: y in AtOrAbove(T, i);
    } else {
      assert forall y | y in T :: y !in AtOrAbove(T, i);
    }
  }

  lemma PickServes(f: Files, req: Request)
    requires Homed(f)
    ensures Served(f, req, Pick(f, req).0, Pick(f, req).1)
  {
    var T, i := f.Tree(req.Home()), Wanted(f, req);
    var (g, r) := Pick(f, req);
    forall x ensures x in T <==> Suitable(f, req, x) {
      TreeSuits(f, req, x);
    }
    if f.entries != map[] && f.idle != 0 {
      if T == {} {
        assert forall x :: !Suitable(f, req, x);
      } else {
        var q := Requested(T, i);
        NextIsRequested(f, req, i);
        hide Homed, Suits, NextUp, Requested;
        assert StartsAt(f, req, i) && Turned(f, g, req, q);
        FirstOrNone(f, T, q);
      }
    }
  }

  lemma FirstOrNone(f: Files, T: set<int>, q: int)
    ensures FirstIdle(f, T, q).Nothing? <==> forall x | x in T && x in f.entries :: f.entries[x].busy
  {
    if T * Idle(f) == {} {
      forall x | x in T && x in f.entries ensures f.entries[x].busy {
        assert x !in T * Idle(f);
      }
    } else {
      var x := Element(T * Idle(f));
    }
  }
}
