/** fileset_resolvepath on a populated fileset: every parent chain ends at the root, and files in a
    tidy fileset have different paths. */
module PopulatePaths {
  import opened Sequences
  import opened Populate
  import opened IpcSlots

  /** The serial numbers on the way from the root down to an item; the root's own is left out. */
  function Serials(dirs: seq<Dir>, parent: int, serial: int): (p: seq<int>)
    requires Grown(dirs, [], []) && 0 <= parent < |dirs|
    ensures p != [] && (0 < serial ==> forall i | 0 <= i < |p| :: 0 < p[i])
    decreases parent
  {
    (if parent == 0 then [] else Serials(dirs, dirs[parent].parent, dirs[parent].serial)) + [serial]
  }

  function Digit(d: int): char
    requires 0 <= d < 10
  {
    ('0' as int + d) as char
  }

  function Digits(n: nat): (s: string)
    ensures 0 < |s| && forall c | c in s :: '0' <= c <= '9'
  {
    if n < 10 then [Digit(n)] else Digits(n / 10) + [Digit(n % 10)]
  }

  function Zeros(k: nat): (s: string)
    ensures |s| == k && forall c | c in s :: c == '0'
  {
    seq(k, _ => '0')
  }

  /** What the format "%08d" makes of a number that is not negative. */
  function Name(n: nat): (s: string)
    ensures 0 < |s| && forall c | c in s :: '0' <= c <= '9'
  {
    var d := Digits(n);
    Zeros(if |d| < 8 then 8 - |d| else 0) + d
  }

  function Value(s: string): int {
    if s == [] then 0 else 10 * Value(s[..|s| - 1]) + (s[|s| - 1] as int - '0' as int)
  }

  lemma {:induction false} ValueOfZeros(k: nat, s: string)
    ensures Value(Zeros(k) + s) == Value(s)
    decreases |s|, k
  {
    if s == [] {
      if k != 0 {
        assert (Zeros(k) + [])[..k - 1] == Zeros(k - 1) + [];
        ValueOfZeros(k - 1, []);
      } else {
        assert Zeros(0) + [] == [];
      }
    } else {
      assert (Zeros(k) + s)[..k + |s| - 1] == Zeros(k) + s[..|s| - 1];
      ValueOfZeros(k, s[..|s| - 1]);
    }
  }

  lemma {:induction false} ValueOfDigits(n: nat)
    ensures Value(Digits(n)) == n
  {
    if n < 10 {
      assert Digits(n)[..0] == [];
    } else {
      ValueOfDigits(n / 10);
      assert Digits(n)[..|Digits(n)| - 1] == Digits(n / 10);
    }
  }

  /** Different numbers have different names. */
  lemma NameInjective(m: nat, n: nat)
    requires Name(m) == Name(n)
    ensures m == n
  {
    ValueOfDigits(m);
    ValueOfDigits(n);
    ValueOfZeros(if |Digits(m)| < 8 then 8 - |Digits(m)| else 0, Digits(m));
    ValueOfZeros(if |Digits(n)| < 8 then 8 - |Digits(n)| else 0, Digits(n));
  }

  /** The path string of a list of serial numbers. */
  function PathString(p: seq<int>): string
    requires forall i | 0 <= i < |p| :: 0 <= p[i]
  {
    if p == [] then "" else PathString(p[..|p| - 1]) + "/" + Name(p[|p| - 1])
  }

  /** The last component of a path is what follows the last slash. */
  lemma LastComponent(a: string, x: string, b: string, y: string)
    requires a + "/" + x == b + "/" + y && '/' !in x && '/' !in y
    ensures a == b && x == y
  {
    var s := a + "/" + x;
    assert s[|a|] == '/' && s[|b|] == '/';
    assert s[..|a|] == a && s[..|b|] == b && s[|a| + 1..] == x && s[|b| + 1..] == y;
  }

  lemma {:induction false} PathInjective(p: seq<int>, q: seq<int>)
    requires (forall i | 0 <= i < |p| :: 0 <= p[i]) && (forall i | 0 <= i < |q| :: 0 <= q[i])
    requires PathString(p) == PathString(q)
    ensures p == q
  {
    hide Name;
    if p != [] && q != [] {
      var p', q' := p[..|p| - 1], q[..|q| - 1];
      LastComponent(PathString(p'), Name(p[|p| - 1]), PathString(q'), Name(q[|q| - 1]));
      hide PathString;
      NameInjective(p[|p| - 1], q[|q| - 1]);
      PathInjective(p', q');
      assert p == p' + [p[|p| - 1]] && q == q' + [q[|q| - 1]];
    }
  }

  /** In a tidy fileset the serial numbers on the way down identify an item. */
  lemma {:induction false} ParentsAgree(dirs: seq<Dir>, p: int, s: int, q: int, t: int)
    requires Grown(dirs, [], []) && TidyDirs(dirs) && 0 <= p < |dirs| && 0 <= q < |dirs|
    requires Serials(dirs, p, s) == Serials(dirs, q, t)
    ensures p == q && s == t
    decreases p
  {
    var a, b := Serials(dirs, p, s), Serials(dirs, q, t);
    assert a[|a| - 1] == s && b[|b| - 1] == t;
    if p != 0 && q != 0 {
      assert a[..|a| - 1] == Serials(dirs, dirs[p].parent, dirs[p].serial);
      assert b[..|b| - 1] == Serials(dirs, dirs[q].parent, dirs[q].serial);
      ParentsAgree(dirs, dirs[p].parent, dirs[p].serial, dirs[q].parent, dirs[q].serial);
    }
  }

  /** The path of an item, given by its parent directory and serial number. */
  function Path(dirs: seq<Dir>, parent: int, serial: int): string
    requires Grown(dirs, [], []) && 0 <= parent < |dirs| && 0 < serial
  {
    PathString(Serials(dirs, parent, serial))
  }

  /** In a tidy fileset two items have the same path only if they have the same place. */
  lemma PathsDiffer(dirs: seq<Dir>, p: int, s: int, q: int, t: int)
    requires Grown(dirs, [], []) && TidyDirs(dirs) && 0 <= p < |dirs| && 0 <= q < |dirs| && 0 < s && 0 < t
    ensures Path(dirs, p, s) == Path(dirs, q, t) <==> p == q && s == t
  {
    if Path(dirs, p, s) == Path(dirs, q, t) {
      PathInjective(Serials(dirs, p, s), Serials(dirs, q, t));
      ParentsAgree(dirs, p, s, q, t);
    }
  }

  /** The parent and serial number of a file or, after the files, of a leaf directory. */
  function Place(files: seq<File>, leafs: seq<Leaf>, i: int): (int, int)
    requires 0 <= i < |files| + |leafs|
  {
    if i < |files| then (files[i].parent, files[i].serial)
    else (leafs[i - |files|].parent, leafs[i - |files|].serial)
  }

  /** The paths of all files and of all leaf directories, in that order. */
  function Paths(dirs: seq<Dir>, files: seq<File>, leafs: seq<Leaf>): (ps: seq<string>)
    requires Grown(dirs, files, leafs)
    ensures |ps| == |files| + |leafs|
  {
    seq(|files| + |leafs|, i requires 0 <= i < |files| + |leafs| =>
      Path(dirs, Place(files, leafs, i).0, Place(files, leafs, i).1))
  }

  ghost predicate Distinct(ps: seq<string>) {
    forall k, l | 0 <= k < l < |ps| :: ps[k] != ps[l]
  }

  lemma PlacesDiffer(dirs: seq<Dir>, files: seq<File>, leafs: seq<Leaf>, k: int, l: int)
    requires Tidy(dirs, files, leafs) && 0 <= k < l < |files| + |leafs|
    ensures Place(files, leafs, k) != Place(files, leafs, l)
  {
    if k < |files| <= l {
      assert !SamePlace(files[k], leafs[l - |files|]);
    }
  }

  /** In a tidy fileset no two files or leaf directories have the same path. */
  lemma PathsDistinct(dirs: seq<Dir>, files: seq<File>, leafs: seq<Leaf>)
    requires Grown(dirs, files, leafs) && Tidy(dirs, files, leafs)
    ensures Distinct(Paths(dirs, files, leafs))
  {
    hide Serials, PathString;
    var ps := Paths(dirs, files, leafs);
    forall k, l | 0 <= k < l < |ps| ensures ps[k] != ps[l] {
      PlacesDiffer(dirs, files, leafs, k, l);
      var a, b := Place(files, leafs, k), Place(files, leafs, l);
      PathsDiffer(dirs, a.0, a.1, b.0, b.1);
    }
  }

  /** Where a file and a leaf directory clash they have the same path. */
  lemma ClashSharesPath(dirs: seq<Dir>, files: seq<File>, leafs: seq<Leaf>)
    requires Grown(dirs, files, leafs) && Clash(files, leafs)
    ensures !Distinct(Paths(dirs, files, leafs))
  {
    var k, l :| 0 <= k < |files| && 0 <= l < |leafs| && SamePlace(files[k], leafs[l]);
    var ps := Paths(dirs, files, leafs);
    assert ps[k] == ps[|files| + l];
  }

  /** The string that is left of `s` in a buffer of `max` characters. */
  function Clipped(s: string, max: nat): (r: string)
    requires 0 < max
    ensures r <= s && (r == s <==> |s| < max)
  {
    if |s| < max then s else s[..max - 1]
  }

  /** What fileset_resolvepath makes of all files and all leaf directories, in that order. */
  function Resolved(dirs: seq<Dir>, files: seq<File>, leafs: seq<Leaf>, max: nat): (ps: seq<string>)
    requires Grown(dirs, files, leafs) && 0 < max
    ensures |ps| == |files| + |leafs|
  {
    var whole := Paths(dirs, files, leafs);
    seq(|whole|, i requires 0 <= i < |whole| => Clipped(whole[i], max))
  }

  /** Every path fits into a buffer of `max` characters. */
  ghost predicate AllFit(ps: seq<string>, max: nat) {
    forall i | 0 <= i < |ps| :: |ps[i]| < max
  }

  /** Paths that fit are resolved as they are; paths that are the same are resolved the same. */
  lemma ResolvedWhole(dirs: seq<Dir>, files: seq<File>, leafs: seq<Leaf>, max: nat)
    requires Grown(dirs, files, leafs) && 0 < max
    ensures AllFit(Paths(dirs, files, leafs), max) ==> Resolved(dirs, files, leafs, max) == Paths(dirs, files, leafs)
    ensures !Distinct(Paths(dirs, files, leafs)) ==> !Distinct(Resolved(dirs, files, leafs, max))
  {
    var ps, rs := Paths(dirs, files, leafs), Resolved(dirs, files, leafs, max);
    if !Distinct(ps) {
      var k, l :| 0 <= k < l < |ps| && ps[k] == ps[l];
      assert rs[k] == rs[l];
    }
  }

  /** A populated fileset.  With both files and leaf directories some resolved paths are the same; with
      one kind only, they are all different if every path fits. */
  method PopulateAndResolve(fs: FileSet, max: nat) returns (ok: bool)
    requires fs.dirs == [] && fs.files == [] && fs.leafs == [] && fs.bytes == 0 && fs.choices.Fair()
    requires fs.Memory() && fs.Counted() && 0 < max
    modifies fs, fs.slots, fs.slots.bitmap
    ensures Grown(fs.dirs, fs.files, fs.leafs)
    ensures ok ==> (Distinct(Paths(fs.dirs, fs.files, fs.leafs)) <==> fs.entries == 0 || fs.leafdirs == 0)
    ensures ok && fs.entries != 0 && fs.leafdirs != 0 ==> !Distinct(Resolved(fs.dirs, fs.files, fs.leafs, max))
    ensures ok && AllFit(Paths(fs.dirs, fs.files, fs.leafs), max) ==>
      (Distinct(Resolved(fs.dirs, fs.files, fs.leafs, max)) <==> fs.entries == 0 || fs.leafdirs == 0)
  {
    hide Grown, Tidy, Clash, Distinct, Grants, AllFit;
    ok := fs.Populate();
    if ok {
      ResolvedWhole(fs.dirs, fs.files, fs.leafs, max);
      if fs.entries != 0 && fs.leafdirs != 0 {
        ClashSharesPath(fs.dirs, fs.files, fs.leafs);
      } else {
        PathsDistinct(fs.dirs, fs.files, fs.leafs);
      }
    }
  }

  /** All items of a directory whose own path fills the buffer are resolved to the same string. */
  lemma DeepItemsCollide(dirs: seq<Dir>, p: int, s: int, t: int, max: nat)
    requires Grown(dirs, [], []) && 0 < p < |dirs| && 0 < s && 0 < t && 0 < max
    requires max - 1 <= |Path(dirs, dirs[p].parent, dirs[p].serial)|
    ensures Clipped(Path(dirs, p, s), max) == Clipped(Path(dirs, p, t), max)
  {
    PathStep(dirs, p, s);
    PathStep(dirs, p, t);
  }

  /** So two files in such a directory have the same resolved path, with or without leaf directories. */
  lemma DeepFilesCollide(dirs: seq<Dir>, files: seq<File>, leafs: seq<Leaf>, k: int, l: int, max: nat)
    requires Grown(dirs, files, leafs) && 0 <= k < l < |files| && files[k].parent == files[l].parent && 0 < max
    requires var d := dirs[files[k].parent]; max - 1 <= |Path(dirs, d.parent, d.serial)|
    ensures !Distinct(Resolved(dirs, files, leafs, max))
  {
    DeepItemsCollide(dirs, files[k].parent, files[k].serial, files[l].serial, max);
    var rs := Resolved(dirs, files, leafs, max);
    assert rs[k] == rs[l];
  }

  lemma {:induction false} DigitsLength(n: nat, limit: nat, k: nat)
    requires 0 < k && n < limit && limit == Power(k)
    ensures |Digits(n)| <= k
    decreases k
  {
    if 10 <= n {
      assert 1 < k;
      DigitsLength(n / 10, Power(k - 1), k - 1);
    }
  }

  function Power(k: nat): nat {
    if k == 0 then 1 else 10 * Power(k - 1)
  }

  /** With serial numbers of up to eight digits, a path has nine characters for every level, so that
      it fits exactly if nine times the number of levels is less than `max`. */
  lemma {:induction false} PathLength(p: seq<int>)
    requires forall i | 0 <= i < |p| :: 0 <= p[i] < 100_000_000
    ensures |PathString(p)| == 9 * |p|
  {
    if p != [] {
      var n := p[|p| - 1];
      assert Power(8) == 100_000_000 by {
        assert Power(4) == 10_000;
      }
      DigitsLength(n, Power(8), 8);
      PathLength(p[..|p| - 1]);
    }
  }

  /** fileset_resolvepath: climbs from the item to the root, putting each name in front, in buffers of
      `max` (MAXPATHLEN) characters.  The result is the path, cut off if it does not fit. */
  method ResolvePath(dirs: seq<Dir>, parent: int, serial: int, max: nat) returns (path: string)
    requires Grown(dirs, [], []) && 0 <= parent < |dirs| && 0 < serial && 1 < max
    ensures path == Clipped(Path(dirs, parent, serial), max)
  {
    hide Serials, PathString;
    path := "";
    ghost var whole := "";
    var up, num := parent, serial;
    assert Climbed(dirs, up, num) + whole == Climbed(dirs, up, num);
    while up != -1
      invariant -1 <= up < |dirs| && 0 < num
      invariant Path(dirs, parent, serial) == Climbed(dirs, up, num) + whole && path == Clipped(whole, max)
      decreases up
    {
      PathStep(dirs, up, num);
      Associative(Climbed(dirs, dirs[up].parent, dirs[up].serial), "/" + Name(num), whole);
      var pathtmp := Clipped("/" + Name(num), max);
      ClippedJoin("/" + Name(num), whole, max);
      pathtmp := Clipped(pathtmp + path, max);
      path, whole := pathtmp, "/" + Name(num) + whole;
      up, num := dirs[up].parent, dirs[up].serial;
    }
    assert "" + whole == whole;
  }

  /** Cutting off as one goes along is cutting off at the end. */
  lemma ClippedJoin(a: string, b: string, max: nat)
    requires 0 < max
    ensures Clipped(Clipped(a, max) + Clipped(b, max), max) == Clipped(a + b, max)
  {
  }

  /** The path of an item, empty for the root. */
  function Climbed(dirs: seq<Dir>, up: int, num: int): string
    requires Grown(dirs, [], []) && -1 <= up < |dirs| && 0 < num
  {
    if up == -1 then "" else Path(dirs, up, num)
  }

  /** One step of the climb. */
  lemma PathStep(dirs: seq<Dir>, up: int, num: int)
    requires Grown(dirs, [], []) && 0 <= up < |dirs| && 0 < num
    ensures Path(dirs, up, num) == Climbed(dirs, dirs[up].parent, dirs[up].serial) + ("/" + Name(num))
  {
    var p := Serials(dirs, up, num);
    var q := if up == 0 then [] else Serials(dirs, dirs[up].parent, dirs[up].serial);
    assert p == q + [num];
    assert p[..|p| - 1] == q;
    Associative(PathString(q), "/", Name(num));
  }
}
