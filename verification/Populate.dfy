/** fileset_populate_subdir and its helpers: a random directory tree filled with files and leaf
    directories.  Depths, widths and sizes are arbitrary choices, made once per directory or file. */
module Populate {
  import opened IpcSlots

  /** A directory: the index of its parent (-1 for the root, which has none) and its serial number
      there. */
  datatype Dir = Dir(parent: int, serial: int)
  datatype File = File(index: int, parent: int, serial: int, size: int)
  datatype Leaf = Leaf(index: int, parent: int, serial: int)

  /** The choices drawn for a fileset: a depth and a width for every directory, a size for every
      file. */
  datatype Choices = Choices(depthOf: int -> int, widthOf: int -> real, sizeOf: int -> int, maxDepth: nat)
  {
    /** Depths are bounded and no width is negative. */
    ghost predicate Fair() {
      (forall d: int :: depthOf(d) <= maxDepth) && (forall d: int :: 0.0 <= widthOf(d))
    }
    /** A depth of 0 counts as 1. */
    function Depth(d: int): int {
      if depthOf(d) == 0 then 1 else depthOf(d)
    }
    /** A width of 0 counts as 1. */
    function Width(d: int): real {
      if widthOf(d) == 0.0 then 1.0 else widthOf(d)
    }
  }

  function Total(files: seq<File>): int {
    if files == [] then 0 else Total(files[..|files| - 1]) + files[|files| - 1].size
  }

  /** Everything below the root has a parent created before it; files and leaf directories are
      numbered in order of creation, and serial numbers start at 1. */
  ghost predicate Grown(dirs: seq<Dir>, files: seq<File>, leafs: seq<Leaf>) {
    && (forall k | 0 <= k < |dirs| :: if k == 0 then dirs[k].parent == -1 else 0 <= dirs[k].parent < k)
    && (forall k | 0 <= k < |dirs| :: 0 < dirs[k].serial)
    && (forall j | 0 <= j < |files| :: files[j].index == j && 0 < files[j].parent < |dirs| && 0 < files[j].serial)
    && (forall j | 0 <= j < |leafs| :: leafs[j].index == j && 0 < leafs[j].parent < |dirs| && 0 < leafs[j].serial)
  }

  ghost predicate TidyDirs(dirs: seq<Dir>) {
    forall k, l | 0 <= k < l < |dirs| :: dirs[k].parent != dirs[l].parent || dirs[k].serial != dirs[l].serial
  }

  /** No two items in the same directory have the same serial number. */
  ghost predicate Tidy(dirs: seq<Dir>, files: seq<File>, leafs: seq<Leaf>) {
    && TidyDirs(dirs)
    && (forall k, l | 0 <= k < l < |files| :: files[k].parent != files[l].parent || files[k].serial != files[l].serial)
    && (forall k, l | 0 <= k < l < |leafs| :: leafs[k].parent != leafs[l].parent || leafs[k].serial != leafs[l].serial)
    && (forall k, l | 0 <= k < |dirs| && 0 <= l < |files| ::
          dirs[k].parent != files[l].parent || dirs[k].serial != files[l].serial)
    && (forall k, l | 0 <= k < |dirs| && 0 <= l < |leafs| ::
          dirs[k].parent != leafs[l].parent || dirs[k].serial != leafs[l].serial)
    && !Clash(files, leafs)
  }

  /** Some file and some leaf directory have the same parent and the same serial number. */
  ghost predicate Clash(files: seq<File>, leafs: seq<Leaf>) {
    exists k, l :: 0 <= k < |files| && 0 <= l < |leafs| && SamePlace(files[k], leafs[l])
  }

  predicate SamePlace(f: File, l: Leaf) {
    f.parent == l.parent && f.serial == l.serial
  }

  /** All children that directory `d` has so far are numbered below `i`. */
  ghost predicate NumberedBelow(dirs: seq<Dir>, files: seq<File>, leafs: seq<Leaf>, d: int, i: int) {
    && (forall k | 0 <= k < |dirs| && dirs[k].parent == d :: dirs[k].serial < i)
    && (forall k | 0 <= k < |files| && files[k].parent == d :: files[k].serial < i)
    && (forall k | 0 <= k < |leafs| && leafs[k].parent == d :: leafs[k].serial < i)
  }

  /** The items created since there were `nd` directories, `nf` files and `nl` leaf directories lie
      below directory `d`. */
  ghost predicate NewBelow(dirs: seq<Dir>, files: seq<File>, leafs: seq<Leaf>, nd: nat, nf: nat, nl: nat, d: int) {
    && (forall k | nd <= k < |dirs| :: d <= dirs[k].parent)
    && (forall k | nf <= k < |files| :: d <= files[k].parent)
    && (forall k | nl <= k < |leafs| :: d <= leafs[k].parent)
  }

  /** Items created below `d` number no other directory's children. */
  lemma StillNumbered(dirs: seq<Dir>, files: seq<File>, leafs: seq<Leaf>,
                      dirs': seq<Dir>, files': seq<File>, leafs': seq<Leaf>, d: int, p: int, i: int)
    requires dirs <= dirs' && files <= files' && leafs <= leafs' && p < d
    requires NewBelow(dirs', files', leafs', |dirs|, |files|, |leafs|, d) && NumberedBelow(dirs, files, leafs, p, i)
    ensures NumberedBelow(dirs', files', leafs', p, i)
  {
  }

  lemma ClashStays(files: seq<File>, leafs: seq<Leaf>, files': seq<File>, leafs': seq<Leaf>)
    requires Clash(files, leafs) && files <= files' && leafs <= leafs'
    ensures Clash(files', leafs')
  {
    var k, l :| 0 <= k < |files| && 0 <= l < |leafs| && SamePlace(files[k], leafs[l]);
    assert SamePlace(files'[k], leafs'[l]);
  }

  /** How deep a directory lies; the root is at level 1. */
  function Level(dirs: seq<Dir>, d: int): nat
    decreases if d < 0 then 0 else d
  {
    if 0 < d < |dirs| && 0 <= dirs[d].parent < d then 1 + Level(dirs, dirs[d].parent) else 1
  }

  lemma {:induction false} LevelStays(dirs: seq<Dir>, more: seq<Dir>, d: int)
    requires dirs <= more && d < |dirs|
    ensures Level(more, d) == Level(dirs, d)
    decreases if d < 0 then 0 else d
  {
    if 0 < d && 0 <= dirs[d].parent < d {
      LevelStays(dirs, more, dirs[d].parent);
    }
  }

  /** A directory other than the root that lies as deep as the depth drawn for it, or deeper. */
  ghost predicate Deep(dirs: seq<Dir>, c: Choices, d: int) {
    d != 0 && c.depthOf(d) <= Level(dirs, d)
  }

  /** Item number `i` is one of those that the width drawn for directory `d` allows. */
  ghost predicate Fits(c: Choices, d: int, i: int) {
    d == 0 || i as real < (if c.widthOf(d) == 0.0 then 1.0 else c.widthOf(d)) + 1.0
  }

  /** Files and leaf directories lie in deep directories only, and directories in the others; and no
      directory but the root has more items of a kind than its width. */
  ghost predicate Drawn(dirs: seq<Dir>, files: seq<File>, leafs: seq<Leaf>, c: Choices) {
    && (forall k {:trigger DirDrawnAt(dirs, c, k)} | 0 < k < |dirs| :: DirDrawnAt(dirs, c, k))
    && (forall k {:trigger FileDrawnAt(dirs, files, c, k)} | 0 <= k < |files| :: FileDrawnAt(dirs, files, c, k))
    && (forall k {:trigger LeafDrawnAt(dirs, leafs, c, k)} | 0 <= k < |leafs| :: LeafDrawnAt(dirs, leafs, c, k))
  }

  ghost predicate DirDrawnAt(dirs: seq<Dir>, c: Choices, k: int)
    requires 0 <= k < |dirs|
  {
    !Deep(dirs, c, dirs[k].parent) && Fits(c, dirs[k].parent, dirs[k].serial)
  }

  ghost predicate FileDrawnAt(dirs: seq<Dir>, files: seq<File>, c: Choices, k: int)
    requires 0 <= k < |files|
  {
    Deep(dirs, c, files[k].parent) && Fits(c, files[k].parent, files[k].serial)
  }

  ghost predicate LeafDrawnAt(dirs: seq<Dir>, leafs: seq<Leaf>, c: Choices, k: int)
    requires 0 <= k < |leafs|
  {
    Deep(dirs, c, leafs[k].parent) && Fits(c, leafs[k].parent, leafs[k].serial)
  }

  lemma FileDrawn(dirs: seq<Dir>, files: seq<File>, leafs: seq<Leaf>, c: Choices, f: File)
    requires Drawn(dirs, files, leafs, c) && Deep(dirs, c, f.parent) && Fits(c, f.parent, f.serial)
    ensures Drawn(dirs, files + [f], leafs, c)
  {
    hide Deep, Fits;
    forall k | 0 <= k < |files| ensures FileDrawnAt(dirs, files + [f], c, k) {
      assert FileDrawnAt(dirs, files, c, k);
    }
  }

  lemma LeafDrawn(dirs: seq<Dir>, files: seq<File>, leafs: seq<Leaf>, c: Choices, l: Leaf)
    requires Drawn(dirs, files, leafs, c) && Deep(dirs, c, l.parent) && Fits(c, l.parent, l.serial)
    ensures Drawn(dirs, files, leafs + [l], c)
  {
    hide Deep, Fits;
    forall k | 0 <= k < |leafs| ensures LeafDrawnAt(dirs, leafs + [l], c, k) {
      assert LeafDrawnAt(dirs, leafs, c, k);
    }
  }

  lemma DirDrawn(dirs: seq<Dir>, files: seq<File>, leafs: seq<Leaf>, c: Choices, d: Dir)
    requires Grown(dirs, files, leafs) && Drawn(dirs, files, leafs, c)
    requires if d.parent == -1 then dirs == []
             else 0 <= d.parent < |dirs| && !Deep(dirs, c, d.parent) && Fits(c, d.parent, d.serial)
    ensures Drawn(dirs + [d], files, leafs, c)
    ensures Level(dirs + [d], |dirs|) == if d.parent == -1 then 1 else 1 + Level(dirs, d.parent)
  {
    var more := dirs + [d];
    forall p | p < |dirs| ensures Deep(more, c, p) <==> Deep(dirs, c, p) {
      LevelStays(dirs, more, p);
    }
    if d.parent != -1 {
      LevelStays(dirs, more, d.parent);
    }
    hide Deep, Fits, Level;
    forall k | 0 < k < |more| ensures DirDrawnAt(more, c, k) {
      assert k < |dirs| ==> DirDrawnAt(dirs, c, k) && dirs[k].parent < |dirs|;
    }
    forall k | 0 <= k < |files| ensures FileDrawnAt(more, files, c, k) {
      assert FileDrawnAt(dirs, files, c, k) && files[k].parent < |dirs|;
    }
    forall k | 0 <= k < |leafs| ensures LeafDrawnAt(more, leafs, c, k) {
      assert LeafDrawnAt(dirs, leafs, c, k) && leafs[k].parent < |dirs|;
    }
  }

  /** Directory `d` has a subdirectory or a file with this number. */
  ghost predicate HasItem(dirs: seq<Dir>, files: seq<File>, d: int, i: int) {
    || (exists k :: 0 <= k < |dirs| && dirs[k].parent == d && dirs[k].serial == i)
    || (exists k :: 0 <= k < |files| && files[k].parent == d && files[k].serial == i)
  }

  /** Directory `d` has a subdirectory or a leaf directory with this number. */
  ghost predicate HasLeafItem(dirs: seq<Dir>, leafs: seq<Leaf>, d: int, i: int) {
    || (exists k :: 0 <= k < |dirs| && dirs[k].parent == d && dirs[k].serial == i)
    || (exists k :: 0 <= k < |leafs| && leafs[k].parent == d && leafs[k].serial == i)
  }

  lemma ItemStays(dirs: seq<Dir>, files: seq<File>, dirs': seq<Dir>, files': seq<File>, d: int, i: int)
    requires HasItem(dirs, files, d, i) && dirs <= dirs' && files <= files'
    ensures HasItem(dirs', files', d, i)
  {
    if k :| 0 <= k < |dirs| && dirs[k].parent == d && dirs[k].serial == i {
      assert dirs'[k] == dirs[k];
    } else {
      var k :| 0 <= k < |files| && files[k].parent == d && files[k].serial == i;
      assert files'[k] == files[k];
    }
  }

  lemma LeafItemStays(dirs: seq<Dir>, leafs: seq<Leaf>, dirs': seq<Dir>, leafs': seq<Leaf>, d: int, i: int)
    requires HasLeafItem(dirs, leafs, d, i) && dirs <= dirs' && leafs <= leafs'
    ensures HasLeafItem(dirs', leafs', d, i)
  {
    if k :| 0 <= k < |dirs| && dirs[k].parent == d && dirs[k].serial == i {
      assert dirs'[k] == dirs[k];
    } else {
      var k :| 0 <= k < |leafs| && leafs[k].parent == d && leafs[k].serial == i;
      assert leafs'[k] == leafs[k];
    }
  }

  /** Items 1, 2, and so on up to number `n` are there. */
  ghost predicate ItemsTo(dirs: seq<Dir>, files: seq<File>, d: int, n: int) {
    forall i | 1 <= i <= n :: HasItem(dirs, files, d, i)
  }

  ghost predicate LeafItemsTo(dirs: seq<Dir>, leafs: seq<Leaf>, d: int, n: int) {
    forall i | 1 <= i <= n :: HasLeafItem(dirs, leafs, d, i)
  }

  /** `n` is the number of items that a width allows: the width rounded up, or 1 if it is 0. */
  ghost predicate Allowed(width: real, n: int) {
    if width == 0.0 then n == 1 else n as real < width + 1.0 && width <= n as real
  }

  lemma ItemsStay(dirs: seq<Dir>, files: seq<File>, dirs': seq<Dir>, files': seq<File>, d: int, n: int)
    requires ItemsTo(dirs, files, d, n) && dirs <= dirs' && files <= files'
    ensures ItemsTo(dirs', files', d, n)
  {
    forall i | 1 <= i <= n ensures HasItem(dirs', files', d, i) {
      ItemStays(dirs, files, dirs', files', d, i);
    }
  }

  lemma LeafItemsStay(dirs: seq<Dir>, leafs: seq<Leaf>, dirs': seq<Dir>, leafs': seq<Leaf>, d: int, n: int)
    requires LeafItemsTo(dirs, leafs, d, n) && dirs <= dirs' && leafs <= leafs'
    ensures LeafItemsTo(dirs', leafs', d, n)
  {
    forall i | 1 <= i <= n ensures HasLeafItem(dirs', leafs', d, i) {
      LeafItemStays(dirs, leafs, dirs', leafs', d, i);
    }
  }

  lemma FileGrown(dirs: seq<Dir>, files: seq<File>, leafs: seq<Leaf>, f: File)
    requires Grown(dirs, files, leafs) && f.index == |files| && 0 < f.parent < |dirs| && 0 < f.serial
    ensures Grown(dirs, files + [f], leafs) && Total(files + [f]) == Total(files) + f.size
  {
    assert (files + [f])[..|files|] == files;
  }

  lemma LeafGrown(dirs: seq<Dir>, files: seq<File>, leafs: seq<Leaf>, l: Leaf)
    requires Grown(dirs, files, leafs) && l.index == |leafs| && 0 < l.parent < |dirs| && 0 < l.serial
    ensures Grown(dirs, files, leafs + [l])
  {
  }

  lemma DirGrown(dirs: seq<Dir>, files: seq<File>, leafs: seq<Leaf>, d: Dir)
    requires Grown(dirs, files, leafs) && 0 < d.serial
    requires if d.parent == -1 then dirs == [] else 0 <= d.parent < |dirs|
    ensures Grown(dirs + [d], files, leafs)
  {
  }

  /** The next number in its directory keeps an item apart from all others. */
  lemma FileTidy(dirs: seq<Dir>, files: seq<File>, leafs: seq<Leaf>, f: File)
    requires Tidy(dirs, files, leafs) && NumberedBelow(dirs, files, leafs, f.parent, f.serial)
    ensures Tidy(dirs, files + [f], leafs) && NumberedBelow(dirs, files + [f], leafs, f.parent, f.serial + 1)
  {
  }

  lemma LeafTidy(dirs: seq<Dir>, files: seq<File>, leafs: seq<Leaf>, l: Leaf)
    requires Tidy(dirs, files, leafs) && NumberedBelow(dirs, files, leafs, l.parent, l.serial)
    ensures Tidy(dirs, files, leafs + [l]) && NumberedBelow(dirs, files, leafs + [l], l.parent, l.serial + 1)
  {
  }

  lemma DirTidy(dirs: seq<Dir>, files: seq<File>, leafs: seq<Leaf>, d: Dir)
    requires Grown(dirs, files, leafs) && Tidy(dirs, files, leafs)
    requires if d.parent == -1 then dirs == [] else NumberedBelow(dirs, files, leafs, d.parent, d.serial)
    requires d.parent < |dirs|
    ensures Tidy(dirs + [d], files, leafs) && NumberedBelow(dirs + [d], files, leafs, |dirs|, 1)
    ensures d.parent != -1 ==> NumberedBelow(dirs + [d], files, leafs, d.parent, d.serial + 1)
  {
  }

  class FileSet {
    const entries: nat
    const leafdirs: nat
    const choices: Choices
    const slots: Slots    // of shared memory, for fileset entries
    var dirs: seq<Dir>
    var files: seq<File>
    var leafs: seq<Leaf>
    var bytes: int
    var idleDirs: nat
    var idleFiles: nat
    var idleLeafdirs: nat
    var names: nat        // path strings that path memory can still hold
    ghost var room: nat   // fileset entries that ipc_malloc will still grant

    constructor (entries: nat, leafdirs: nat, choices: Choices, slots: Slots, names: nat)
      requires slots.Valid()
      ensures this.entries == entries && this.leafdirs == leafdirs && this.choices == choices && this.slots == slots
      ensures dirs == [] && files == [] && leafs == [] && bytes == 0 && Memory() && Counted()
    {
      this.entries, this.leafdirs, this.choices, this.slots, this.names := entries, leafdirs, choices, slots, names;
      dirs, files, leafs, bytes := [], [], [], 0;
      idleDirs, idleFiles, idleLeafdirs := 0, 0, 0;
      room := Grants(slots.bitmap[..], slots.last);
    }

    ghost predicate Valid()
      reads this
    {
      && Grown(dirs, files, leafs) && bytes == Total(files) && Drawn(dirs, files, leafs, choices)
      && |files| <= entries && |leafs| <= leafdirs && choices.Fair()
    }

    /** Populating is single-threaded, so that every allocation starts from the slot handed out last. */
    ghost predicate Memory()
      reads this, slots, slots.bitmap
    {
      slots.Valid() && room == Grants(slots.bitmap[..], slots.last)
    }

    /** The idle counts are the numbers of entries made. */
    ghost predicate Counted()
      reads this
    {
      idleDirs == |dirs| && idleFiles == |files| && idleLeafdirs == |leafs|
    }

    /** After a failure one entry may be counted that has no name. */
    ghost predicate Exhausted()
      reads this
    {
      && (room == 0 || names == 0)
      && |dirs| + |files| + |leafs| <= idleDirs + idleFiles + idleLeafdirs <= |dirs| + |files| + |leafs| + 1
    }

    /** Files and leaf directories are not mixed. */
    predicate Alone() {
      entries == 0 || leafdirs == 0
    }

    ghost predicate Tidied()
      reads this
    {
      Alone() ==> Tidy(dirs, files, leafs)
    }

    /** ipc_malloc(FILEBENCH_FILESETENTRY) */
    method NewEntry() returns (ok: bool)
      requires Memory()
      modifies `room, slots, slots.bitmap
      ensures Memory() && (ok <==> 0 < old(room)) && (!ok ==> room == 0)
    {
      var slot := slots.Malloc(slots.last);
      ok := slot.Some?;
      room := if ok then room - 1 else 0;
    }

    /** ipc_pathalloc */
    method NewName() returns (ok: bool)
      modifies `names
      ensures (ok <==> 0 < old(names)) && (!ok ==> names == 0)
    {
      ok := names != 0;
      if ok {
        names := names - 1;
      }
    }

    /** fileset_populate_file.  Without a name the file is listed and counted as idle, but not as one
        of the files made. */
    method PopulateFile(parent: int, serial: int) returns (ok: bool)
      requires Valid() && Memory() && Counted() && Tidied()
      requires 0 < parent < |dirs| && |files| < entries && 0 < serial
      requires Deep(dirs, choices, parent) && Fits(choices, parent, serial)
      requires Alone() ==> NumberedBelow(dirs, files, leafs, parent, serial)
      modifies `files, `bytes, `idleFiles, `names, `room, slots, slots.bitmap
      ensures Valid() && Memory() && Tidied() && (if ok then Counted() else Exhausted())
      ensures ok && Alone() ==> NumberedBelow(dirs, files, leafs, parent, serial + 1)
      ensures ok ==> files == old(files) + [File(|old(files)|, parent, serial, choices.sizeOf(|old(files)|))]
      ensures !ok ==> files == old(files)
    {
      hide Grown, Tidy, NumberedBelow, Total, Drawn, Deep, Fits, Level, Grants;
      ok := NewEntry();
      if !ok {
        return;
      }
      var index := idleFiles;
      idleFiles := idleFiles + 1;
      ok := NewName();
      if !ok {
        return;
      }
      var size := choices.sizeOf(|files|);
      FileGrown(dirs, files, leafs, File(index, parent, serial, size));
      FileDrawn(dirs, files, leafs, choices, File(index, parent, serial, size));
      if Alone() {
        FileTidy(dirs, files, leafs, File(index, parent, serial, size));
      }
      files := files + [File(index, parent, serial, size)];
      bytes := bytes + size;
    }

    /** fileset_populate_leafdir */
    method PopulateLeafdir(parent: int, serial: int) returns (ok: bool)
      requires Valid() && Memory() && Counted() && Tidied()
      requires 0 < parent < |dirs| && |leafs| < leafdirs && 0 < serial
      requires Deep(dirs, choices, parent) && Fits(choices, parent, serial)
      requires Alone() ==> NumberedBelow(dirs, files, leafs, parent, serial)
      modifies `leafs, `idleLeafdirs, `names, `room, slots, slots.bitmap
      ensures Valid() && Memory() && Tidied() && (if ok then Counted() else Exhausted())
      ensures ok && Alone() ==> NumberedBelow(dirs, files, leafs, parent, serial + 1)
      ensures ok ==> leafs == old(leafs) + [Leaf(|old(leafs)|, parent, serial)]
      ensures !ok ==> leafs == old(leafs)
    {
      hide Grown, Tidy, NumberedBelow, Total, Drawn, Deep, Fits, Level, Grants;
      ok := NewEntry();
      if !ok {
        return;
      }
      var index := idleLeafdirs;
      idleLeafdirs := idleLeafdirs + 1;
      ok := NewName();
      if !ok {
        return;
      }
      LeafGrown(dirs, files, leafs, Leaf(index, parent, serial));
      LeafDrawn(dirs, files, leafs, choices, Leaf(index, parent, serial));
      if Alone() {
        LeafTidy(dirs, files, leafs, Leaf(index, parent, serial));
      }
      leafs := leafs + [Leaf(index, parent, serial)];
    }

    /** The entry that fileset_populate_subdir makes for the directory itself. */
    method AddDir(parent: int, serial: int) returns (ok: bool)
      requires Valid() && Memory() && Counted() && Tidied() && 0 < serial
      requires if parent == -1 then dirs == [] && files == [] && leafs == [] else 0 <= parent < |dirs|
      requires parent != -1 ==> !Deep(dirs, choices, parent) && Fits(choices, parent, serial)
      requires Alone() && parent != -1 ==> NumberedBelow(dirs, files, leafs, parent, serial)
      modifies `dirs, `idleDirs, `names, `room, slots, slots.bitmap
      ensures Valid() && Memory() && Tidied() && (if ok then Counted() else Exhausted())
      ensures ok ==> dirs == old(dirs) + [Dir(parent, serial)]
      ensures ok ==> Level(dirs, |old(dirs)|) == if parent == -1 then 1 else 1 + Level(old(dirs), parent)
      ensures ok && Alone() ==> NumberedBelow(dirs, files, leafs, |old(dirs)|, 1)
      ensures ok && Alone() && parent != -1 ==> NumberedBelow(dirs, files, leafs, parent, serial + 1)
      ensures !ok ==> dirs == old(dirs)
    {
      hide Grown, Tidy, NumberedBelow, Total, Drawn, Deep, Fits, Level, Grants;
      ok := NewEntry();
      if !ok {
        return;
      }
      idleDirs := idleDirs + 1;
      ok := NewName();
      if !ok {
        return;
      }
      DirGrown(dirs, files, leafs, Dir(parent, serial));
      DirDrawn(dirs, files, leafs, choices, Dir(parent, serial));
      if Alone() {
        DirTidy(dirs, files, leafs, Dir(parent, serial));
      }
      dirs := dirs + [Dir(parent, serial)];
    }

    /** Both kinds are wanted, and none has been made. */
    ghost predicate Fresh()
      reads this
    {
      0 < entries && 0 < leafdirs && files == [] && leafs == []
    }

    /** The first file is the first item of directory `d`, and no leaf directory has been made. */
    ghost predicate FileFirst(d: int)
      reads this
    {
      leafs == [] && 0 < |files| && files[0].parent == d && files[0].serial == 1
    }

    /** fileset_populate_subdir: one more directory, and what it holds.  The root keeps adding
        subdirectories until there are enough files and leaf directories; any other directory adds
        at least one of each kind that is still missing. */
    method PopulateSubdir(parent: int, serial: int, depth: int) returns (ok: bool)
      requires Valid() && Memory() && Counted() && Tidied() && 0 <= depth <= choices.maxDepth + 1 && 0 < serial
      requires if parent == -1 then dirs == [] && depth == 0 && files == [] && leafs == [] else 0 <= parent < |dirs|
      requires parent != -1 ==>
        depth == Level(dirs, parent) && !Deep(dirs, choices, parent) && Fits(choices, parent, serial)
      requires Alone() && parent != -1 ==> NumberedBelow(dirs, files, leafs, parent, serial)
      modifies `dirs, `files, `leafs, `bytes, `idleDirs, `idleFiles, `idleLeafdirs, `names, `room, slots, slots.bitmap
      ensures Valid() && Memory() && Tidied() && (if ok then Counted() else Exhausted())
      ensures Alone() && ok && parent != -1 ==> NumberedBelow(dirs, files, leafs, parent, serial + 1)
      ensures ok ==> |dirs| > |old(dirs)| && dirs[..|old(dirs)| + 1] == old(dirs) + [Dir(parent, serial)]
      ensures ok ==> old(files) <= files && old(leafs) <= leafs
      ensures ok ==> NewBelow(dirs, files, leafs, |old(dirs)| + 1, |old(files)|, |old(leafs)|, |old(dirs)|)
      ensures ok ==> |files| == entries || (parent != -1 && |old(files)| < |files|)
      ensures ok ==> |leafs| == leafdirs || (parent != -1 && |old(leafs)| < |leafs|)
      ensures ok && old(Fresh()) ==> Clash(files, leafs)
      ensures ok && parent != -1 && |files| < entries ==>
        exists n :: Allowed(choices.widthOf(|old(dirs)|), n) && ItemsTo(dirs, files, |old(dirs)|, n)
      ensures ok && parent != -1 && |leafs| < leafdirs ==>
        exists n :: Allowed(choices.widthOf(|old(dirs)|), n) && LeafItemsTo(dirs, leafs, |old(dirs)|, n)
      decreases choices.maxDepth + 1 - depth, 0
    {
      hide Grown, Total, Tidy, NumberedBelow, Clash, Grants, Drawn, Fits, Level, ItemsTo, LeafItemsTo, Allowed;
      var depth := depth + 1;
      var d := |dirs|;
      ok := AddDir(parent, serial);
      if !ok {
        return;
      }
      ghost var dirs0, files0, leafs0 := dirs, files, leafs;
      var isleaf := depth >= choices.Depth(d);
      ok := FileLoop(d, parent == -1, isleaf, choices.Width(d), depth);
      if !ok {
        return;
      }
      ghost var dirs1, files1, leafs1 := dirs, files, leafs;
      LevelStays(dirs0, dirs, d);
      ok := LeafLoop(d, parent == -1, isleaf, choices.Width(d), depth);
      if !ok {
        return;
      }
      if Alone() && parent != -1 {
        StillNumbered(dirs0, files0, leafs0, dirs, files, leafs, d, parent, serial + 1);
      }
      if old(Fresh()) {
        ClashAtLast(files1, leafs1, files, leafs, d);
      }
      if parent != -1 && |files| < entries {
        ghost var n :| Allowed(choices.widthOf(d), n) && ItemsTo(dirs1, files1, d, n);
        ItemsStay(dirs1, files1, dirs, files, d, n);
      }
    }

    /** The first loop of fileset_populate_subdir. */
    method FileLoop(d: int, isRoot: bool, isleaf: bool, width: real, depth: int) returns (ok: bool)
      requires Valid() && Memory() && Counted() && Tidied() && 0 <= d < |dirs| && (isRoot <==> d == 0) && 0.0 < width
      requires isRoot ==> depth == 1
      requires width == choices.Width(d) && depth == Level(dirs, d) && (!isRoot && isleaf <==> Deep(dirs, choices, d))
      requires 1 <= depth <= choices.maxDepth + 2 && (depth < choices.maxDepth + 2 || (isleaf && !isRoot))
      requires Alone() ==> NumberedBelow(dirs, files, leafs, d, 1)
      modifies `dirs, `files, `leafs, `bytes, `idleDirs, `idleFiles, `idleLeafdirs, `names, `room, slots, slots.bitmap
      ensures Valid() && Memory() && Tidied() && (if ok then Counted() else Exhausted())
      ensures ok ==> old(dirs) <= dirs && old(files) <= files && old(leafs) <= leafs
      ensures ok ==> NewBelow(dirs, files, leafs, |old(dirs)|, |old(files)|, |old(leafs)|, d)
      ensures ok ==> |files| == entries || (!isRoot && |old(files)| < |files|)
      ensures ok && entries == 0 ==> dirs == old(dirs) && files == old(files) && leafs == old(leafs)
      ensures ok && old(Fresh()) ==> Clash(files, leafs) || (!isRoot && isleaf && FileFirst(d))
      ensures ok && !isRoot && |files| < entries ==>
        exists n :: Allowed(choices.widthOf(d), n) && ItemsTo(dirs, files, d, n)
      decreases choices.maxDepth + 1 - depth, 1
    {
      hide Grown, Total, Tidy, NumberedBelow, Clash, Grants, Drawn, Level, HasItem, HasLeafItem;
      var i := 1;
      while (isRoot || i as real < width + 1.0) && |files| < entries
        invariant Valid() && Memory() && Counted() && Tidied() && 1 <= i
        invariant Level(dirs, d) == depth && ItemsTo(dirs, files, d, i - 1)
        invariant !isRoot && 1 < i ==> (i - 1) as real < width + 1.0
        invariant old(dirs) <= dirs && old(files) <= files && old(leafs) <= leafs
        invariant NewBelow(dirs, files, leafs, |old(dirs)|, |old(files)|, |old(leafs)|, d)
        invariant Alone() ==> NumberedBelow(dirs, files, leafs, d, i)
        invariant if i == 1 then dirs == old(dirs) && files == old(files) && leafs == old(leafs)
                  else 0 < entries && |old(files)| < |files|
        invariant 1 < i && old(Fresh()) ==> Clash(files, leafs) || (!isRoot && isleaf && FileFirst(d))
        decreases entries - |files|
      {
        ghost var files0, leafs0 := files, leafs;
        ghost var dirs0, more0 := dirs, files;
        if !isRoot && isleaf {
          ok := PopulateFile(d, i);
        } else {
          ok := PopulateSubdir(d, i, depth);
        }
        if !ok {
          return;
        }
        if Clash(files0, leafs0) {
          ClashStays(files0, leafs0, files, leafs);
        }
        LevelStays(dirs0, dirs, d);
        NewItem(dirs0, more0, dirs, files, d, i, !isRoot && isleaf);
        i := i + 1;
      }
      ok := true;
      if !isRoot && |files| < entries {
        assert Allowed(choices.widthOf(d), i - 1);
      }
    }

    /** The second loop of fileset_populate_subdir.  Its numbers start at 1 again. */
    method LeafLoop(d: int, isRoot: bool, isleaf: bool, width: real, depth: int) returns (ok: bool)
      requires Valid() && Memory() && Counted() && Tidied() && 0 <= d < |dirs| && (isRoot <==> d == 0) && 0.0 < width
      requires isRoot ==> depth == 1
      requires width == choices.Width(d) && depth == Level(dirs, d) && (!isRoot && isleaf <==> Deep(dirs, choices, d))
      requires 1 <= depth <= choices.maxDepth + 2 && (depth < choices.maxDepth + 2 || (isleaf && !isRoot))
      requires entries == 0 ==> NumberedBelow(dirs, files, leafs, d, 1)
      modifies `dirs, `files, `leafs, `bytes, `idleDirs, `idleFiles, `idleLeafdirs, `names, `room, slots, slots.bitmap
      ensures Valid() && Memory() && Tidied() && (if ok then Counted() else Exhausted())
      ensures ok ==> old(dirs) <= dirs && old(files) <= files && old(leafs) <= leafs
      ensures ok ==> NewBelow(dirs, files, leafs, |old(dirs)|, |old(files)|, |old(leafs)|, d)
      ensures ok ==> |leafs| == leafdirs || (!isRoot && |old(leafs)| < |leafs|)
      ensures ok && old(leafs) == [] && 0 < leafdirs && !isRoot && isleaf ==>
        leafs[0].parent == d && leafs[0].serial == 1
      ensures ok && !isRoot && |leafs| < leafdirs ==>
        exists n :: Allowed(choices.widthOf(d), n) && LeafItemsTo(dirs, leafs, d, n)
      decreases choices.maxDepth + 1 - depth, 1
    {
      hide Grown, Total, Tidy, NumberedBelow, Clash, Grants, Drawn, Level, HasItem, HasLeafItem;
      var i := 1;
      while (isRoot || i as real < width + 1.0) && |leafs| < leafdirs
        invariant Valid() && Memory() && Counted() && Tidied() && 1 <= i
        invariant Level(dirs, d) == depth && LeafItemsTo(dirs, leafs, d, i - 1)
        invariant !isRoot && 1 < i ==> (i - 1) as real < width + 1.0
        invariant old(dirs) <= dirs && old(files) <= files && old(leafs) <= leafs
        invariant NewBelow(dirs, files, leafs, |old(dirs)|, |old(files)|, |old(leafs)|, d)
        invariant entries == 0 ==> NumberedBelow(dirs, files, leafs, d, i)
        invariant if i == 1 then leafs == old(leafs) else |old(leafs)| < |leafs|
        invariant 1 < i && old(leafs) == [] && !isRoot && isleaf ==> leafs[0].parent == d && leafs[0].serial == 1
        decreases leafdirs - |leafs|
      {
        ghost var dirs0, more0 := dirs, leafs;
        if !isRoot && isleaf {
          ok := PopulateLeafdir(d, i);
        } else {
          ok := PopulateSubdir(d, i, depth);
        }
        if !ok {
          return;
        }
        LevelStays(dirs0, dirs, d);
        NewLeafItem(dirs0, more0, dirs, leafs, d, i, !isRoot && isleaf);
        i := i + 1;
      }
      ok := true;
      if !isRoot && |leafs| < leafdirs {
        assert Allowed(choices.widthOf(d), i - 1);
      }
    }

    /** The call of fileset_populate_subdir that populates an empty fileset.  It fails only if shared
        memory runs out; otherwise it ends with exactly the files and leaf directories asked for, and
        no two items share a place if and only if the two kinds are not mixed. */
    method Populate() returns (ok: bool)
      requires dirs == [] && files == [] && leafs == [] && bytes == 0 && choices.Fair() && Memory() && Counted()
      modifies `dirs, `files, `leafs, `bytes, `idleDirs, `idleFiles, `idleLeafdirs, `names, `room, slots, slots.bitmap
      ensures Grown(dirs, files, leafs) && bytes == Total(files) && Drawn(dirs, files, leafs, choices)
      ensures if ok then Counted() else Exhausted()
      ensures ok ==> |files| == entries && |leafs| == leafdirs && 0 < |dirs| && dirs[0] == Dir(-1, 1)
      ensures ok ==> if entries == 0 || leafdirs == 0 then Tidy(dirs, files, leafs) else Clash(files, leafs)
    {
      ok := PopulateSubdir(-1, 1, 0);
      if ok {
        assert dirs[..1][0] == dirs[0];
      }
    }
  }

  /** The item that a round of the first loop adds. */
  lemma NewItem(dirs: seq<Dir>, files: seq<File>, dirs': seq<Dir>, files': seq<File>, d: int, i: int, file: bool)
    requires ItemsTo(dirs, files, d, i - 1) && dirs <= dirs' && files <= files'
    requires file ==> |files| < |files'| && files'[|files|].parent == d && files'[|files|].serial == i
    requires !file ==> |dirs| < |dirs'| && dirs'[|dirs|] == Dir(d, i)
    ensures ItemsTo(dirs', files', d, i)
  {
    ItemsStay(dirs, files, dirs', files', d, i - 1);
    assert HasItem(dirs', files', d, i);
  }

  lemma NewLeafItem(dirs: seq<Dir>, leafs: seq<Leaf>, dirs': seq<Dir>, leafs': seq<Leaf>, d: int, i: int, leaf: bool)
    requires LeafItemsTo(dirs, leafs, d, i - 1) && dirs <= dirs' && leafs <= leafs'
    requires leaf ==> |leafs| < |leafs'| && leafs'[|leafs|].parent == d && leafs'[|leafs|].serial == i
    requires !leaf ==> |dirs| < |dirs'| && dirs'[|dirs|] == Dir(d, i)
    ensures LeafItemsTo(dirs', leafs', d, i)
  {
    LeafItemsStay(dirs, leafs, dirs', leafs', d, i - 1);
    assert HasLeafItem(dirs', leafs', d, i);
  }

  /** Either there was a clash before the second loop, or there is one now. */
  lemma ClashAtLast(files: seq<File>, leafs: seq<Leaf>, files': seq<File>, leafs': seq<Leaf>, d: int)
    requires files <= files' && leafs <= leafs'
    requires Clash(files, leafs)
      || (0 < |files| && files[0].parent == d && files[0].serial == 1
          && 0 < |leafs'| && leafs'[0].parent == d && leafs'[0].serial == 1)
    ensures Clash(files', leafs')
  {
    if Clash(files, leafs) {
      ClashStays(files, leafs, files', leafs');
    } else {
      assert SamePlace(files'[0], leafs'[0]);
    }
  }
}
