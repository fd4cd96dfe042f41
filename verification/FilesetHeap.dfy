/** The files of a fileset as they are kept: entries with their flags, indexed by three AVL trees.
    fileset_pick, fileset_unbusy and the wait-and-grab loops of deletefile and closefile run on the
    trees; each call is one stay inside fs_pick_lock.  Leaf directories are kept in the same way. */
module FilesetHeap {
  import opened AvlLayout
  import opened AvlHeap
  import opened AvlSearch
  import opened AvlUpdate
  import opened FilesetState
  import opened FilesetBridge
  import opened FilesetPick
  import T = FilesetTrees
  import P = FilesetProtocol

  ghost function Flags(n: Node): Entry
    reads n`free, n`present, n`busy, n`waiting, n`openCnt
  {
    Entry(n.free, n.present, n.busy, n.waiting, n.openCnt)
  }

  class FileSet {
    const free: AvlTree
    const exist: AvlTree
    const noex: AvlTree
    var table: map<int, Node>     // fs_filelist, by fse_index
    var idle: int
    var nerotor: int
    var exrotor: map<int, int>

    function TreeOf(h: Home): AvlTree {
      match h
      case Free => free
      case Exist => exist
      case Noex => noex
    }

    /** The indices of the entries in a tree. */
    ghost function Indices(h: Home): set<int>
      reads this`table, TreeOf(h)`L
    {
      set k | k in table && table[k] in TreeOf(h).L.Keys
    }

    ghost function Entries(): map<int, Entry>
      reads this`table, table.Values`free, table.Values`present, table.Values`busy
      reads table.Values`waiting, table.Values`openCnt
    {
      map k | k in table :: Flags(table[k])
    }

    /** The fileset with its trees reduced to index sets. */
    ghost function Now(): Files
      reads this, free`L, exist`L, noex`L, table.Values`free, table.Values`present, table.Values`busy
      reads table.Values`waiting, table.Values`openCnt
    {
      Files(Entries(), Indices(Free), Indices(Exist), Indices(Noex), idle, nerotor, exrotor)
    }

    /** A valid tree, sorted by index, of entries of this fileset. */
    ghost predicate Indexed(h: Home)
      reads this`table, TreeOf(h), TreeOf(h).ord`key
      reads TreeOf(h).L.Keys`child, TreeOf(h).L.Keys`parent, TreeOf(h).L.Keys`childIndex, TreeOf(h).L.Keys`balance
    {
      T.Index(TreeOf(h)) && TreeOf(h).L.Keys <= table.Values
    }

    /** The three trees are valid, sorted and different, and hold entries of this fileset. */
    ghost predicate Built()
      reads this`table, free, exist, noex, table.Values`key, free.ord`key, exist.ord`key, noex.ord`key
      reads free.L.Keys`child, free.L.Keys`parent, free.L.Keys`childIndex, free.L.Keys`balance
      reads exist.L.Keys`child, exist.L.Keys`parent, exist.L.Keys`childIndex, exist.L.Keys`balance
      reads noex.L.Keys`child, noex.L.Keys`parent, noex.L.Keys`childIndex, noex.L.Keys`balance
    {
      && free != exist && free != noex && exist != noex
      && Indexed(Free) && Indexed(Exist) && Indexed(Noex)
      && forall k | k in table :: table[k].key == k
    }

    /** And every entry is in exactly the tree that its flags name. */
    ghost predicate Valid()
      reads this, free, exist, noex, table.Values
      reads free.ord`key, exist.ord`key, noex.ord`key, free.L.Keys, exist.L.Keys, noex.L.Keys
    {
      Built() && Homed(Now())
    }

    constructor ()
      ensures Valid() && table == map[] && idle == 0 && Now() == Files(map[], {}, {}, {}, 0, 0, map[])
      ensures fresh(free) && fresh(exist) && fresh(noex) && free.L.Keys == {}
    {
      free := new AvlTree();
      exist := new AvlTree();
      noex := new AvlTree();
      table, idle, nerotor, exrotor := map[], 0, 0, map[];
      new;
      hide FileSet.Built, T.Index;
      EmptyIndex(free);
      EmptyIndex(exist);
      EmptyIndex(noex);
      Closed(Free, Exist, Noex);
    }

    lemma Keyed()
      requires Built()
      ensures forall k | k in table :: table[k].key == k
      ensures forall n | n in table.Values :: n.key in table && table[n.key] == n
    {
    }

    /** What the trees are. */
    lemma Opened(h: Home)
      requires Built()
      ensures Indexed(h) && T.Index(TreeOf(h)) && TreeOf(h).L.Keys <= table.Values
      ensures forall g: Home | g != h :: TreeOf(g) != TreeOf(h)
    {
    }

    lemma Closed(g: Home, h: Home, i: Home)
      requires g != h && g != i && h != i && Indexed(g) && Indexed(h) && Indexed(i)
      requires TreeOf(g) != TreeOf(h) && TreeOf(g) != TreeOf(i) && TreeOf(h) != TreeOf(i)
      requires forall k | k in table :: table[k].key == k
      ensures Built()
    {
    }

    lemma IndicesAreKeys(h: Home)
      requires Built()
      ensures Indices(h) == KeysOf(TreeOf(h).ord)
      ensures forall n | n in TreeOf(h).L :: n.key in Indices(h) && table[n.key] == n
      ensures T.Index(TreeOf(h)) && (TreeOf(h).ord == [] <==> Indices(h) == {})
      ensures Mirrors(Now(), TreeOf(h).ord) && (TreeOf(h).numnodes == 0 <==> Indices(h) == {})
    {
      hide FileSet.Built, Shaped, Off, Sorted;
      var t := TreeOf(h);
      Opened(h);
      Keyed();
      OrdInTree(t);
      forall k ensures k in Indices(h) <==> k in KeysOf(t.ord) {
        TreeKeys(t, k);
        if k in KeysOf(t.ord) {
          var n :| n in t.L.Keys && n.key == k;
          assert table[k] == n;
        }
      }
      forall i | 0 <= i < |t.ord|
        ensures t.ord[i].key in Indices(h) && t.ord[i].key in Entries() && Entries()[t.ord[i].key].busy == t.ord[i].busy
      {
        assert t.ord[i] in t.L.Keys;
        EntryAt(t.ord[i]);
      }
      assert t.ord == [] ==> Indices(h) <= {};
      assert t.ord != [] ==> t.ord[0].key in Indices(h);
    }

    /** fileset_find_entry and the busy scan, on a tree that is not empty. */
    method Locate(h: Home, want: int) returns (start: Node, entry: Node?)
      requires Built() && Indices(h) != {}
      ensures start.key in Indices(h) && start.key == Requested(Indices(h), want)
      ensures entry == null ==> FirstIdle(Now(), Indices(h), start.key) == Nothing
      ensures entry != null ==>
        && entry.key in Indices(h) && table[entry.key] == entry
        && FirstIdle(Now(), Indices(h), start.key) == Picked(entry.key)
    {
      hide FileSet.Built, Sorted, KeysOf, Mirrors, Requested, FirstIdle, T.Index;
      IndicesAreKeys(h);
      start, entry := FindIdle(TreeOf(h), want, Now());
    }

    /** The flags of one entry have changed. */
    twostate lemma Reflagged(new entry: Node)
      requires table == old(table) && entry.key in table && table[entry.key] == entry
      requires forall k | k in table :: table[k].key == k
      requires forall k | k in table && k != entry.key :: Flags(table[k]) == old(Flags(table[k]))
      ensures Entries() == old(Entries())[entry.key := Flags(entry)]
    {
    }

    /** Makes an entry busy, as fileset_pick and the wait-and-grab loops do. */
    method MakeBusy(entry: Node, count: int)
      requires Valid() && entry.key in table && table[entry.key] == entry
      modifies this`idle, entry`busy
      ensures Valid() && Now() == MarkBusy(old(Now()), entry.key).(idle := count)
    {
      hide FileSet.Built, FileSet.Entries, Homed;
      Keyed();
      ghost var before := Now();
      EntryAt(entry);
      BusyHomed(before, entry.key, count);
      assert forall k | k in table && k != entry.key :: table[k] != entry;
      idle := count;
      entry.busy := true;
      Reflagged(entry);
    }

    lemma Parts(h: Home)
      ensures Now().Tree(h) == Indices(h) && Now().entries == Entries()
      ensures Now().idle == idle && Now().nerotor == nerotor && Now().exrotor == exrotor
    {
    }

    lemma EntriesKeys()
      ensures Entries().Keys == table.Keys
    {
    }

    lemma EntryAt(entry: Node)
      requires entry.key in table && table[entry.key] == entry
      ensures entry.key in Entries() && Entries()[entry.key] == Flags(entry)
    {
    }

    method Rotate(noexist: bool, tid: int, next: int)
      requires Valid()
      modifies this`nerotor, this`exrotor
      ensures Valid()
      ensures Now() == if noexist then old(Now()).(nerotor := next)
                       else old(Now()).(exrotor := old(Now()).exrotor[tid := next])
    {
      hide FileSet.Built, Homed;
      ghost var before := Now();
      if noexist {
        nerotor := next;
      } else {
        exrotor := exrotor[tid := next];
      }
      HomedSame(before, Now());
    }

    /** The rotor moves on and the entry found, if any, becomes busy. */
    method Take(req: Request, start: Node, entry: Node?)
      requires Valid() && (entry != null ==> entry.key in table && table[entry.key] == entry)
      modifies this`idle, this`nerotor, this`exrotor, table.Values`busy
      ensures Valid()
      ensures var g := Rotated(old(Now()), req, start.key);
        Now() == if entry == null then g else MarkBusy(g, entry.key).(idle := g.idle - 1)
    {
      hide FileSet.Built, Homed;
      if req.ByRotor? {
        Rotate(req.noexist, req.tid, start.key + 1);
      }
      if entry != null {
        MakeBusy(entry, idle - 1);
      }
    }

    /** What a pick sees of the fileset. */
    lemma Seen(req: Request)
      requires Built()
      ensures (Now().entries == map[] <==> table == map[]) && Now().idle == idle && Wanted(Now(), req) == Want(req)
      ensures Now().Tree(req.Home()) == Indices(req.Home())
      ensures TreeOf(req.Home()).numnodes == 0 <==> Indices(req.Home()) == {}
    {
      hide FileSet.Built;
      IndicesAreKeys(req.Home());
      assert table == map[] <==> Entries() == map[];
    }

    /** fileset_pick, up to the point where it would wait for an idle entry. */
    method PickFile(req: Request) returns (r: Outcome)
      requires Valid()
      modifies this`idle, this`nerotor, this`exrotor, table.Values`busy
      ensures Valid() && Now() == Pick(old(Now()), req).0 && r == Pick(old(Now()), req).1
      ensures Served(old(Now()), req, Now(), r)
      ensures r.Picked? ==> r.x in table && var n := table[r.x];
        && n.busy && !old(n.busy) && (req.Unique? ==> old(n.free))
        && (!req.Unique? ==> !old(n.free) && old(n.present) == !req.noexist)
      ensures r.Nothing? ==> forall k | k in table :: var n := table[k];
        old(n.busy) || if req.Unique? then !old(n.free) else old(n.free) || old(n.present) == req.noexist
    {
      Choice(req);
      r := PickEntry(req);
      if r.Picked? {
        NowAt(table[r.x]);
      }
    }

    /** What the flags of the entries say about a pick. */
    lemma Choice(req: Request)
      requires Valid()
      ensures var (g, r) := Pick(Now(), req);
        && Served(Now(), req, g, r)
        && (r.Picked? ==> r.x in table && g.entries == MarkBusy(Now(), r.x).entries && var n := table[r.x];
              && !n.busy && (req.Unique? ==> n.free) && (!req.Unique? ==> !n.free && n.present == !req.noexist))
        && (r.Nothing? ==> forall k | k in table :: var n := table[k];
              n.busy || if req.Unique? then !n.free else n.free || n.present == req.noexist)
    {
      hide FileSet.Built;
      PickServes(Now(), req);
      P.PickEffect(Now(), req);
      var r := Pick(Now(), req).1;
      hide Homed, Pick;
      if r.Nothing? {
        forall k | k in table ensures var n := table[k];
          n.busy || if req.Unique? then !n.free else n.free || n.present == req.noexist
        {
          assert Now().entries[k] == Flags(table[k]);
          assert Suitable(Now(), req, k) ==> Now().entries[k].busy;
        }
      }
    }

    method PickEntry(req: Request) returns (r: Outcome)
      requires Valid()
      modifies this`idle, this`nerotor, this`exrotor, table.Values`busy
      ensures Valid() && Now() == Pick(old(Now()), req).0 && r == Pick(old(Now()), req).1
    {
      hide FileSet.Built, FileSet.Now, Homed, Requested, FirstIdle, Rotated, MarkBusy;
      Seen(req);
      if table == map[] {
        return Nothing;
      }
      if idle == 0 {
        return Waits;
      }
      if TreeOf(req.Home()).numnodes == 0 {
        return Nothing;
      }
      var start, entry := Locate(req.Home(), Want(req));
      RotatedIdle(Now(), req, start.key);
      Take(req, start, entry);
      r := if entry == null then Nothing else Picked(entry.key);
    }

    /** The index that a pick starts from. */
    function Want(req: Request): int
      reads this`nerotor, this`exrotor
    {
      match req
      case Unique(i) => i
      case ByIndex(_, i) => i
      case ByRotor(noexist, tid) => if noexist then nerotor else if tid in exrotor then exrotor[tid] else 0
    }

    /** An entry is in the tree that its flags name and in no other. */
    lemma InOneTree(x: int, h: Home)
      requires Valid() && x in table
      ensures table[x] in TreeOf(h).L <==> HomeOf(Flags(table[x])) == h
    {
      hide FileSet.Built;
      var f := Now();
      assert x in f.entries && f.entries[x] == Flags(table[x]);
      assert x in f.Tree(h) <==> x in Indices(h);
      match h {
        case Free =>
        case Exist =>
        case Noex =>
      }
    }

    lemma Apart(g: Home, h: Home)
      requires Valid() && g != h
      ensures forall n | n in TreeOf(g).L :: n !in TreeOf(h).L
    {
      forall n | n in TreeOf(g).L ensures n !in TreeOf(h).L {
        Opened(g);
        Keyed();
        InOneTree(n.key, g);
        InOneTree(n.key, h);
      }
    }

    /** What fileset_move_entry needs: the flags of an entry name the tree it is in, and its index is
        in no other. */
    lemma MoveReady(entry: Node, src: Home, dst: Home)
      requires Valid() && src != dst && entry.key in table && table[entry.key] == entry
      requires HomeOf(Flags(entry)) == src
      ensures TreeOf(src) != TreeOf(dst) && T.Index(TreeOf(src)) && T.Index(TreeOf(dst))
      ensures entry in TreeOf(src).L && !HasKey(TreeOf(dst).ord, entry.key)
    {
      Opened(src);
      Opened(dst);
      Keyed();
      InOneTree(entry.key, src);
      InOneTree(entry.key, dst);
    }

    /** fileset_move_entry between two trees of the fileset. */
    method Relocate(entry: Node, src: Home, dst: Home, ghost other: Home)
      requires Built() && src != dst && other != src && other != dst && entry in TreeOf(src).L
      requires !HasKey(TreeOf(dst).ord, entry.key) && forall n | n in TreeOf(src).L :: n !in TreeOf(dst).L
      requires forall n | n in TreeOf(other).L :: n !in TreeOf(src).L && n !in TreeOf(dst).L
      modifies TreeOf(src), TreeOf(dst)
      modifies TreeOf(src).L.Keys`child, TreeOf(src).L.Keys`parent
      modifies TreeOf(src).L.Keys`childIndex, TreeOf(src).L.Keys`balance
      modifies TreeOf(dst).L.Keys`child, TreeOf(dst).L.Keys`parent
      modifies TreeOf(dst).L.Keys`childIndex, TreeOf(dst).L.Keys`balance
      ensures Built()
      ensures TreeOf(src).L.Keys == old(TreeOf(src).L.Keys) - {entry}
      ensures TreeOf(dst).L.Keys == old(TreeOf(dst).L.Keys) + {entry}
    {
      hide FileSet.Built, T.Index, HasKey;
      Keyed();
      Opened(src);
      Opened(dst);
      Opened(other);
      T.MoveEntry(TreeOf(src), TreeOf(dst), entry);
      Closed(src, dst, other);
    }

    /** A part of fileset_unbusy: the entry is marked as existing or not, and moved accordingly. */
    method Move(entry: Node, src: Home, dst: Home, ghost other: Home, nowExists: bool)
      requires Valid() && entry.key in table && table[entry.key] == entry && HomeOf(Flags(entry)) == src
      requires src != dst && other != src && other != dst && dst == if nowExists then Exist else Noex
      modifies TreeOf(src), TreeOf(dst), entry`free, entry`present
      modifies table.Values`child, table.Values`parent, table.Values`childIndex, table.Values`balance
      ensures Valid()
      ensures !entry.free && entry.present == nowExists
      ensures Now() == Placed(old(Now()), entry.key, src, dst, old(Flags(entry)).(free := false, present := nowExists))
    {
      hide FileSet.Built, FileSet.Entries, FileSet.Indices, FileSet.Now, Homed, HasKey, T.Index, Placed;
      ghost var before := Now();
      Parts(src);
      Parts(dst);
      Parts(other);
      Keyed();
      EntryAt(entry);
      MoveReady(entry, src, dst);
      Apart(src, dst);
      Apart(other, src);
      Apart(other, dst);
      Opened(src);
      Opened(dst);
      PlacedHomed(before, entry.key, src, dst, Flags(entry).(free := false, present := nowExists));
      Mark(entry, nowExists);
      Relocate(entry, src, dst, other);
      Reindexed(entry, src, dst, other);
      Parts(src);
      Parts(dst);
      Parts(other);
      PlacedIs(before, Now(), entry.key, src, dst, other);
    }

    /** Sets or clears FSE_EXISTS and clears FSE_FREE. */
    method Mark(entry: Node, nowExists: bool)
      requires Built() && entry.key in table && table[entry.key] == entry
      modifies entry`free, entry`present
      ensures !entry.free && entry.present == nowExists
      ensures Entries() == old(Entries())[entry.key := old(Flags(entry)).(free := false, present := nowExists)]
    {
      hide FileSet.Built, FileSet.Entries;
      Keyed();
      assert forall k | k in table && k != entry.key :: table[k] != entry;
      entry.present := nowExists;
      entry.free := false;
      Reflagged(entry);
    }

    /** The index sets after a move. */
    twostate lemma Reindexed(new entry: Node, new src: Home, new dst: Home, new other: Home)
      requires table == old(table) && entry.key in table && table[entry.key] == entry
      requires forall k | k in table :: table[k].key == k
      requires src != dst && other != src && other != dst
      requires TreeOf(src).L.Keys == old(TreeOf(src).L.Keys) - {entry}
      requires TreeOf(dst).L.Keys == old(TreeOf(dst).L.Keys) + {entry}
      requires TreeOf(other).L == old(TreeOf(other).L)
      ensures Indices(src) == old(Indices(src)) - {entry.key}
      ensures Indices(dst) == old(Indices(dst)) + {entry.key}
      ensures Indices(other) == old(Indices(other))
    {
      var S, D := old(TreeOf(src).L.Keys), old(TreeOf(dst).L.Keys);
      assert forall k | k in table :: table[k] in TreeOf(src).L.Keys <==> table[k] in S && k != entry.key;
      assert forall k | k in table :: table[k] in TreeOf(dst).L.Keys <==> table[k] in D || k == entry.key;
    }

    /** The flags of an entry that is no longer busy. */
    method Unflag(entry: Node, incr: int) returns (busy: bool, wake: bool)
      requires Built() && entry.key in table && table[entry.key] == entry
      modifies entry`busy, entry`waiting, entry`openCnt
      ensures busy == old(entry.busy) && wake == old(entry.busy && entry.waiting)
      ensures entry.openCnt == old(entry.openCnt) + incr && !entry.busy
      ensures entry.waiting == (old(entry.waiting) && !old(entry.busy))
      ensures Flags(entry) == Rested(old(Flags(entry)), incr)
      ensures Entries() == old(Entries())[entry.key := Flags(entry)]
    {
      hide FileSet.Built, FileSet.Entries;
      Keyed();
      assert forall k | k in table && k != entry.key :: table[k] != entry;
      busy, wake := entry.busy, false;
      entry.openCnt := entry.openCnt + incr;
      if entry.busy {
        entry.busy := false;
        if entry.waiting {
          entry.waiting := false;
          wake := true;
        }
      }
      Reflagged(entry);
    }

    /** The rest of fileset_unbusy: the open count, and if the entry was busy, its flags, the idle count
        and the wakeup. */
    method Release(entry: Node, incr: int) returns (wake: bool)
      requires Valid() && entry.key in table && table[entry.key] == entry
      modifies this`idle, entry`busy, entry`waiting, entry`openCnt
      ensures Valid() && Now() == Released(old(Now()), entry.key, incr).0
      ensures wake == Released(old(Now()), entry.key, incr).1 == old(entry.busy && entry.waiting)
      ensures entry.openCnt == old(entry.openCnt) + incr && !entry.busy
      ensures entry.waiting == (old(entry.waiting) && !old(entry.busy))
      ensures idle == old(idle) + if old(entry.busy) then 1 else 0
    {
      hide FileSet.Built, FileSet.Entries, Homed;
      EntryAt(entry);
      ReleasedHomed(Now(), entry.key, incr);
      var busy;
      busy, wake := Unflag(entry, incr);
      if busy {
        idle := idle + 1;
      }
      assert Entries() == old(Entries())[entry.key := Flags(entry)];
      assert Indices(Free) == old(Indices(Free)) && Indices(Exist) == old(Indices(Exist));
      assert Indices(Noex) == old(Indices(Noex));
    }

    /** fileset_unbusy; `wake` tells whether fs_thrd_wait_cv is broadcast.  The flags of the entry
        always name the tree it is in, so that every move finds it there. */
    method UnbusyFile(entry: Node, update: bool, nowExists: bool, incr: int) returns (wake: bool)
      requires Valid() && entry.key in table && table[entry.key] == entry
      modifies this`idle, free, exist, noex
      modifies entry`free, entry`present, entry`busy, entry`waiting, entry`openCnt
      modifies table.Values`child, table.Values`parent, table.Values`childIndex, table.Values`balance
      ensures Valid() && Now() == Unbusy(old(Now()), entry.key, update, nowExists, incr).0
      ensures wake == Unbusy(old(Now()), entry.key, update, nowExists, incr).1
      ensures entry.openCnt == old(entry.openCnt) + incr && !entry.busy
      ensures entry.waiting == (old(entry.waiting) && !old(entry.busy)) && wake == old(entry.busy && entry.waiting)
      ensures if update then !entry.free && entry.present == nowExists
              else entry.free == old(entry.free) && entry.present == old(entry.present)
      ensures idle == old(idle) + if old(entry.busy) then 1 else 0
    {
      hide FileSet.Built, FileSet.Now, Homed, Placed, Released, Unbusy;
      ghost var before := Now();
      NowAt(entry);
      UnbusySplit(before, entry.key, update, nowExists, incr);
      if update {
        if nowExists {
          if entry.free {
            Move(entry, Free, Exist, Noex, true);
          } else if !entry.present {
            Move(entry, Noex, Exist, Free, true);
          }
        } else {
          if entry.free {
            Move(entry, Free, Noex, Exist, false);
          } else if entry.present {
            Move(entry, Exist, Noex, Free, false);
          }
        }
      }
      wake := Release(entry, incr);
    }

    /** The entry that fileset_populate_file makes: it gets the idle count for an index and goes on the
        free tree, fileset_insfilelist. */
    method InsertFile() returns (entry: Node)
      requires Valid() && idle !in table
      modifies this`table, this`idle, free
      modifies free.L.Keys`child, free.L.Keys`parent, free.L.Keys`childIndex, free.L.Keys`balance
      ensures Valid() && fresh(entry) && entry.key == old(idle) && Now() == Added(old(Now()), old(idle))
      ensures free.L.Keys == old(free.L.Keys) + {entry}
    {
      hide FileSet.Built, FileSet.Now, Homed, T.Index, Added;
      entry := new Node(idle);
      Enlist(entry);
    }

    method Enlist(entry: Node)
      requires Valid() && entry.key !in table && entry !in table.Values
      requires Flags(entry) == Entry(true, false, false, false, 0)
      modifies this`table, this`idle, free, entry`child, entry`parent, entry`childIndex, entry`balance
      modifies free.L.Keys`child, free.L.Keys`parent, free.L.Keys`childIndex, free.L.Keys`balance
      ensures Valid() && Now() == Added(old(Now()), entry.key) && free.L.Keys == old(free.L.Keys) + {entry}
    {
      hide FileSet.Built, FileSet.Entries, FileSet.Indices, Homed, T.Index, Added;
      Keyed();
      EntriesKeys();
      AddedHomed(Now(), entry.key);
      AddFree(entry);
      Record(entry);
      Enlisted(entry);
      AddedIs(old(Now()), Now(), entry.key);
    }

    method Record(entry: Node)
      requires T.Index(free) && T.Index(exist) && T.Index(noex) && free != exist && free != noex && exist != noex
      requires free.L.Keys <= table.Values + {entry} && exist.L.Keys <= table.Values && noex.L.Keys <= table.Values
      requires entry.key !in table && forall k | k in table :: table[k].key == k
      modifies this`table, this`idle
      ensures Built() && table == old(table)[entry.key := entry] && idle == old(idle) + 1
    {
      hide FileSet.Built, T.Index;
      ValuesGrow(table, entry.key, entry);
      table := table[entry.key := entry];
      idle := idle + 1;
      Closed(Free, Exist, Noex);
    }

    /** The tree part: the other two trees are not affected. */
    method AddFree(entry: Node)
      requires Valid() && entry.key !in table && entry !in table.Values
      modifies free, entry`child, entry`parent, entry`childIndex, entry`balance
      modifies free.L.Keys`child, free.L.Keys`parent, free.L.Keys`childIndex, free.L.Keys`balance
      ensures T.Index(free) && T.Index(exist) && T.Index(noex) && free != exist && free != noex && exist != noex
      ensures free.L.Keys == old(free.L.Keys) + {entry} && free.L.Keys <= table.Values + {entry}
      ensures exist.L.Keys <= table.Values && noex.L.Keys <= table.Values && entry !in exist.L && entry !in noex.L
    {
      hide FileSet.Built, FileSet.Now, Homed, HasKey, T.Index;
      Keyed();
      Opened(Free);
      Opened(Exist);
      Opened(Noex);
      Apart(Free, Exist);
      Apart(Free, Noex);
      FreshKey(entry);
      AddNew(free, entry);
    }

    twostate lemma Enlisted(new entry: Node)
      requires entry.key !in old(table) && entry !in old(table).Values && table == old(table)[entry.key := entry]
      requires free.L.Keys == old(free.L.Keys) + {entry} && exist.L == old(exist.L) && noex.L == old(noex.L)
      requires entry !in exist.L && entry !in noex.L
      requires forall k | k in old(table) :: Flags(table[k]) == old(Flags(table[k]))
      ensures Entries() == old(Entries())[entry.key := Flags(entry)]
      ensures Indices(Free) == old(Indices(Free)) + {entry.key}
      ensures Indices(Exist) == old(Indices(Exist)) && Indices(Noex) == old(Indices(Noex))
    {
      var was := old(table);
      assert forall k | k in was :: was[k] in was.Values && was[k] != entry && k != entry.key && table[k] == was[k];
      assert forall k | k in table :: k == entry.key || k in was;
      assert forall k | k in was :: table[k] in free.L.Keys <==> was[k] in old(free.L.Keys);
      assert Entries().Keys == old(Entries()).Keys + {entry.key};
    }

    lemma FreshKey(entry: Node)
      requires T.Index(free) && free.L.Keys <= table.Values && entry.key !in table
      requires forall n | n in table.Values :: n.key in table
      ensures !HasKey(free.ord, entry.key)
    {
    }

    lemma NowAt(entry: Node)
      requires entry.key in table && table[entry.key] == entry
      ensures entry.key in Now().entries && Now().entries[entry.key] == Flags(entry) && Now().idle == idle
    {
    }

    /** One round of the wait-and-grab loop of deletefile (Delete) and closefile (Close).  A busy entry
        is marked as waited for, so that whoever makes it idle will wake this thread; an idle one is
        taken: it is the caller's alone.  It stays in its tree either way. */
    method GrabFile(entry: Node, k: Kind) returns (r: Outcome)
      requires Valid() && entry.key in table && table[entry.key] == entry
      modifies this`idle, entry`busy, entry`waiting
      ensures Valid() && Now() == Grab(old(Now()), entry.key, k).0 && r == Grab(old(Now()), entry.key, k).1
      ensures entry.busy && (r.Waits? <==> old(entry.busy)) && (r.Waits? ==> entry.waiting && idle == old(idle))
      ensures Idle(Now()) == old(Idle(Now())) - {entry.key}
      ensures r.Picked? ==> r.x == entry.key && idle == old(idle) - if k.Delete? || entry.openCnt == 1 then 1 else 0
      ensures HomeOf(Flags(entry)) == old(HomeOf(Flags(entry)))
    {
      hide FileSet.Built, FileSet.Entries, Homed;
      ghost var before := Now();
      Keyed();
      EntryAt(entry);
      GrabIdle(before, entry.key, k);
      if entry.busy {
        assert forall k | k in table && k != entry.key :: table[k] != entry;
        entry.waiting := true;
        Reflagged(entry);
        return Waits;
      }
      MakeBusy(entry, if k.Delete? || entry.openCnt == 1 then idle - 1 else idle);
      return Picked(entry.key);
    }
  }

  /** avl_add of an entry whose index is not in the tree. */
  method AddNew(t: AvlTree, entry: Node)
    requires T.Index(t) && !HasKey(t.ord, entry.key)
    modifies t, entry`child, entry`parent, entry`childIndex, entry`balance
    modifies t.L.Keys`child, t.L.Keys`parent, t.L.Keys`childIndex, t.L.Keys`balance
    ensures T.Index(t) && t.L.Keys == old(t.L.Keys) + {entry}
  {
    Add(t, entry);
  }

  lemma ValuesGrow<K, V>(m: map<K, V>, k: K, v: V)
    requires k !in m
    ensures m[k := v].Values == m.Values + {v}
  {
    forall x | x in m.Values ensures x in m[k := v].Values {
      var j :| j in m && m[j] == x;
      assert m[k := v][j] == x;
    }
    assert m[k := v][k] == v;
  }

  lemma OrdInTree(t: AvlTree)
    requires t.Linked()
    ensures forall i | 0 <= i < |t.ord| :: t.ord[i] in t.L
  {
  }

  lemma EmptyIndex(t: AvlTree)
    requires t.Valid() && t.ord == [] && t.L == map[]
    ensures T.Index(t)
  {
  }

  /** The flags and the open count of an entry after fileset_unbusy. */
  function Rested(e: Entry, incr: int): Entry {
    if e.busy then e.(openCnt := e.openCnt + incr, busy := false, waiting := false)
    else e.(openCnt := e.openCnt + incr)
  }

  /** An entry made idle, if it was busy; the flag tells whether sleepers are woken. */
  function Released(f: Files, x: int, incr: int): (Files, bool)
    requires x in f.entries
  {
    var e := f.entries[x];
    (f.(entries := f.entries[x := Rested(e, incr)], idle := if e.busy then f.idle + 1 else f.idle), e.busy && e.waiting)
  }

  /** A new free entry, counted as idle. */
  function Added(f: Files, x: int): Files {
    f.(entries := f.entries[x := Entry(true, false, false, false, 0)], free := f.free + {x}, idle := f.idle + 1)
  }

  lemma AddedIs(f: Files, g: Files, x: int)
    requires g.entries == f.entries[x := Entry(true, false, false, false, 0)] && g.free == f.free + {x}
    requires g.exist == f.exist && g.noex == f.noex && g.idle == f.idle + 1
    requires g.nerotor == f.nerotor && g.exrotor == f.exrotor
    ensures g == Added(f, x)
  {
  }

  lemma AddedHomed(f: Files, x: int)
    requires Homed(f) && x !in f.entries
    ensures Homed(Added(f, x))
  {
  }

  lemma ReleasedHomed(f: Files, x: int, incr: int)
    requires Homed(f) && x in f.entries
    ensures Homed(Released(f, x, incr).0)
  {
  }

  lemma GrabIdle(f: Files, x: int, k: Kind)
    requires Homed(f) && x in f.entries
    ensures Homed(Grab(f, x, k).0) && Idle(Grab(f, x, k).0) == Idle(f) - {x}
  {
  }

  /** Unbusying is moving, if the flags ask for it, and then releasing. */
  lemma UnbusySplit(f: Files, x: int, update: bool, nowExists: bool, incr: int)
    requires x in f.entries
    ensures var e := f.entries[x]; var s := e.(free := false, present := nowExists);
      var g := if !update || HomeOf(e) == HomeOf(s) then f else Placed(f, x, HomeOf(e), HomeOf(s), s);
      x in g.entries && Unbusy(f, x, update, nowExists, incr) == Released(g, x, incr)
  {
    var e := f.entries[x];
    var s := e.(free := false, present := nowExists);
    if update && HomeOf(e) != HomeOf(s) {
      var g := Placed(f, x, HomeOf(e), HomeOf(s), s);
      assert Unbusy(f, x, update, nowExists, incr).0.entries == Released(g, x, incr).0.entries;
    }
  }

  /** Entry `x` with new flags and in another tree. */
  function Placed(f: Files, x: int, src: Home, dst: Home, e: Entry): Files {
    Moved(f, x, src, dst).(entries := f.entries[x := e])
  }

  lemma PlacedIs(f: Files, g: Files, x: int, src: Home, dst: Home, other: Home)
    requires x in g.entries && src != dst && other != src && other != dst
    requires g.Tree(src) == f.Tree(src) - {x} && g.Tree(dst) == f.Tree(dst) + {x} && g.Tree(other) == f.Tree(other)
    requires g.idle == f.idle && g.nerotor == f.nerotor && g.exrotor == f.exrotor
    requires g.entries == f.entries[x := g.entries[x]]
    ensures g == Placed(f, x, src, dst, g.entries[x])
  {
  }

  lemma PlacedHomed(f: Files, x: int, src: Home, dst: Home, e: Entry)
    requires Homed(f) && x in f.entries && HomeOf(f.entries[x]) == src && HomeOf(e) == dst && src != dst
    ensures Homed(Placed(f, x, src, dst, e))
  {
  }

  lemma RotatedIdle(f: Files, req: Request, q: int)
    ensures Rotated(f, req, q).idle == f.idle
  {
  }

  lemma HomedSame(f: Files, g: Files)
    requires Homed(f) && g.entries == f.entries && g.free == f.free && g.exist == f.exist && g.noex == f.noex
    ensures Homed(g)
  {
  }

  lemma BusyHomed(f: Files, x: int, count: int)
    requires Homed(f) && x in f.entries
    ensures Homed(MarkBusy(f, x).(idle := count))
  {
  }

  /** `n` entries, numbered from 0, all free and idle. */
  ghost predicate Filled(f: Files, n: nat) {
    && f.idle == n == |f.entries| && (forall k :: k in f.entries <==> 0 <= k < n)
    && forall x | x in f.entries :: f.entries[x] == Entry(true, false, false, false, 0)
  }

  lemma FilledMore(f: Files, n: nat)
    requires Filled(f, n)
    ensures n !in f.entries && Filled(Added(f, n), n + 1)
  {
    var g := Added(f, n);
    assert g.entries.Keys == f.entries.Keys + {n};
    assert |g.entries| == |g.entries.Keys| && |f.entries| == |f.entries.Keys|;
  }

  /** Making a fileset of `n` files one by one gives the state that the runs start from, whatever
      threads there are. */
  method Build(n: nat) returns (fs: FileSet)
    ensures fresh(fs) && fs.Valid() && Filled(fs.Now(), n)
    ensures forall threads | (forall t | t in threads :: threads[t] == P.Running) ::
      P.Initial(P.State(fs.Now(), threads, 0))
  {
    hide FileSet.Valid, FileSet.Now, Added;
    fs := new FileSet();
    assert Filled(fs.Now(), 0);
    for i := 0 to n
      invariant fresh(fs) && fresh(fs.free) && fresh(fs.free.L.Keys) && fs.Valid() && Filled(fs.Now(), i)
    {
      FilledMore(fs.Now(), i);
      IndexFree(fs);
      var _ := fs.InsertFile();
    }
    ValidHomed(fs);
  }

  lemma IndexFree(fs: FileSet)
    requires fs.Now().idle !in fs.Now().entries
    ensures fs.idle !in fs.table && fs.idle == fs.Now().idle
  {
  }

  lemma ValidHomed(fs: FileSet)
    requires fs.Valid()
    ensures Homed(fs.Now())
  {
  }
}
