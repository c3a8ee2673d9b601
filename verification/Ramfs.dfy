/** ramfs_parse of kernel/src/fs/ramfs.c: a USTAR archive in memory becomes a vnode tree, with the
    names cut up in place. */
module Ramfs {
  import opened CStrings
  import opened Vfs
  import opened Initrd

  // ---------- reading headers ----------

  function U32(x: int): nat {
    x % 0x1_0000_0000
  }

  /** The size field, read by strtol and stored in 32 bits. */
  function SizeAt(b: seq<char>, h: nat): nat
    requires h + 124 <= |b|
  {
    U32(StrtolSpec(CStr(b, h + 124), 8))
  }

  /** How far the offset moves: header plus padded data, in 32-bit arithmetic. */
  function Stride(size: nat): nat {
    U32(512 + U32(size + 511) / 512 * 512)
  }

  /** The stride is the header plus the data rounded up to 512, for every size below 2^32 - 1023. */
  lemma StrideIs(size: nat)
    requires size + 1023 < 0x1_0000_0000
    ensures Stride(size) % 512 == 0 && 512 + size <= Stride(size) < 512 + size + 512
  {
    assert U32(size + 511) == size + 511;
  }

  /** Exactly the 512 sizes just below that limit's complement leave the offset where it is. */
  lemma StuckSizes(size: nat)
    requires size < 0x1_0000_0000
    ensures Stride(size) == 0 <==> 0x1_0000_0000 - 1023 <= size <= 0x1_0000_0000 - 512
  {
    if size + 511 < 0x1_0000_0000 {
      var y := size + 511;
      BlocksWrap(y / 512);
      assert U32(y) == y;
      assert y / 512 == 0x7f_ffff <==> y >= 0x1_0000_0000 - 512;
    } else {
      assert U32(size + 511) == size + 511 - 0x1_0000_0000;
      assert U32(size + 511) / 512 == 0;
    }
  }

  /** What the 32-bit step is for every size: the header plus padded data, nothing at all, or the header alone,
      so that the next header is read out of the data. */
  lemma StrideExactly(size: nat)
    requires size < 0x1_0000_0000
    ensures if size <= 0x1_0000_0000 - 1024 then Stride(size) == 512 + (size + 511) / 512 * 512
            else if size <= 0x1_0000_0000 - 512 then Stride(size) == 0
            else Stride(size) == 512
  {
    StuckSizes(size);
    if size <= 0x1_0000_0000 - 1024 {
      StrideIs(size);
      assert U32(size + 511) == size + 511;
    } else if size > 0x1_0000_0000 - 512 {
      assert U32(size + 511) == size + 511 - 0x1_0000_0000;
      assert U32(size + 511) / 512 == 0;
    }
  }

  lemma BlocksWrap(blocks: nat)
    requires blocks <= 0x7f_ffff
    ensures U32(512 + blocks * 512) == 0 <==> blocks == 0x7f_ffff
  {
  }

  lemma {:induction false} OctalBound(ds: string, n: nat)
    requires |ds| <= n <= 11 && forall k :: 0 <= k < |ds| ==> '0' <= ds[k] <= '7'
    ensures Value(ds, 8) < EightTo(n)
  {
    if ds != [] {
      OctalBound(ds[..|ds| - 1], n - 1);
    } else if n > 0 {
      OctalBound(ds, n - 1);
    }
  }

  function EightTo(n: nat): nat {
    if n == 0 then 1 else 8 * EightTo(n - 1)
  }

  lemma EightTo11()
    ensures EightTo(11) == 0x2_0000_0000
  {
    assert EightTo(3) == 0x200;
    assert EightTo(6) == 0x4_0000;
    assert EightTo(9) == 0x800_0000;
  }

  /** A size field of up to eleven octal digits with a NUL or a space behind them is read as that octal
      number; only the 32-bit size can cut it, and does so only from 2^32 on. */
  lemma OctalField(b: seq<char>, h: nat, n: nat)
    requires 1 <= n <= 11 && h + 125 + n <= |b| && Terminated(b, h + 124)
    requires forall k :: h + 124 <= k < h + 124 + n ==> '0' <= b[k] <= '7'
    requires b[h + 124 + n] == NUL || b[h + 124 + n] == ' '
    ensures var v := Value(b[h + 124..h + 124 + n], 8);
            && v < 0x2_0000_0000 && SizeAt(b, h) == U32(v) && (v < 0x1_0000_0000 <==> SizeAt(b, h) == v)
  {
    hide Value, StrtolSpec, CStr;
    var t, ds := CStr(b, h + 124), b[h + 124..h + 124 + n];
    CStrFacts(b, h + 124);
    CStrAtLeast(b, h + 124, n);
    assert forall k :: 0 <= k < n ==> t[k] == b[h + 124 + k];
    assert t[..n] == ds;
    assert n < |t| ==> t[n] == b[h + 124 + n];
    OctalString(t, n);
  }

  lemma OctalString(t: string, n: nat)
    requires 1 <= n <= 11 && n <= |t| && (forall k :: 0 <= k < n ==> '0' <= t[k] <= '7')
    requires n < |t| ==> t[n] == ' '
    ensures Value(t[..n], 8) == StrtolSpec(t, 8) < 0x2_0000_0000
  {
    OctalBound(t[..n], 11);
    EightTo11();
    hide Value, EightTo, DigitRun;
    DigitRunIs(t, 8, n);
    assert '0' <= t[0] <= '7' && SkipSpace(t) == t;
  }

  /** A header whose size field reads 37777776001: the parser stays where it is. */
  lemma StuckHeader(b: seq<char>, h: nat)
    requires h + 512 <= |b| && b[h + 124..h + 135] == "37777776001" && b[h + 135] == NUL
    ensures SizeAt(b, h) == 0x1_0000_0000 - 1023 && Stride(SizeAt(b, h)) == 0
  {
    var f := b[h + 124..h + 135];
    assert forall k :: 0 <= k < 11 ==> b[h + 124 + k] == f[k];
    assert forall k :: h + 124 <= k < h + 135 ==> b[k] == f[k - (h + 124)] && '0' <= f[k - (h + 124)] <= '7';
    hide Stride, SizeAt, CStr, StrtolSpec;
    OctalField(b, h, 11);
    StuckField();
    StrideExactly(0x1_0000_0000 - 1023);
  }

  lemma StuckField()
    ensures Value("37777776001", 8) == 0x1_0000_0000 - 1023
  {
    assert Value("3777", 8) == 0x7ff by {
      assert "3777"[..3] == "377" && "377"[..2] == "37" && "37"[..1] == "3" && "3"[..0] == "";
      assert Value("3", 8) == 3 && Value("37", 8) == 31 && Value("377", 8) == 255;
    }
    assert "37777776001"[..10] == "3777777600" && "3777777600"[..9] == "377777760" && "377777760"[..8] == "37777776";
    assert "37777776"[..7] == "3777777" && "3777777"[..6] == "377777" && "377777"[..5] == "37777"
           && "37777"[..4] == "3777";
    assert Value("37777", 8) == 0x3fff;
    assert Value("377777", 8) == 0x1ffff;
    assert Value("3777777", 8) == 0xfffff;
    assert Value("37777776", 8) == 0x7ffffe;
    assert Value("377777760", 8) == 0x3fffff0;
    assert Value("3777777600", 8) == 0x1fffff80;
  }

  predicate DotSlash(b: seq<char>, h: nat)
    requires h + 2 <= |b|
  {
    b[h] == '.' && b[h + 1] == '/'
  }

  /** Where the name proper starts: behind a leading "./". */
  function NameStart(b: seq<char>, h: nat): nat
    requires h + 2 <= |b|
  {
    if DotSlash(b, h) then h + 2 else h
  }

  function NameAt(b: seq<char>, h: nat): string
    requires h + 2 <= |b|
  {
    CStr(b, NameStart(b, h))
  }

  predicate Skipped(b: seq<char>, h: nat)
    requires h + 2 <= |b|
  {
    NameAt(b, h) == "" || NameAt(b, h) == "."
  }

  function EntryAt(b: seq<char>, h: nat): Entry
    requires h + 512 <= |b|
  {
    Entry(Segments(NameAt(b, h), "/"), b[h + 156] == '5', SizeAt(b, h), h + 512)
  }

  /** What the parser relies on in one header: it is complete, its name ends inside its field, its
      numbers are terminated, its size does not wrap, and its name names something. */
  ghost predicate HeaderOk(b: seq<char>, h: nat) {
    && h + 512 <= |b|
    && (exists k :: h <= k < h + 100 && b[k] == NUL)
    && Terminated(b, h + 100) && Terminated(b, h + 124)
    && SizeAt(b, h) + 1023 < 0x1_0000_0000
    && (Skipped(b, h) || Segments(NameAt(b, h), "/") != [])
  }

  ghost predicate Stops(b: seq<char>, h: nat) {
    h >= |b| || b[h] == NUL
  }

  /** The headers from offset h on are well formed up to the end mark or the end of the archive. */
  ghost predicate Complete(b: seq<char>, h: nat)
    decreases |b| - h
  {
    Stops(b, h) || (HeaderOk(b, h) && (StrideIs(SizeAt(b, h)); Complete(b, h + Stride(SizeAt(b, h)))))
  }

  /** The entries of the archive from offset h on. */
  ghost function Entries(b: seq<char>, h: nat): seq<Entry>
    requires Complete(b, h)
    decreases |b| - h
  {
    if Stops(b, h) then [] else
    StrideIs(SizeAt(b, h));
    (if Skipped(b, h) then [] else [EntryAt(b, h)]) + Entries(b, h + Stride(SizeAt(b, h)))
  }

  /** The offsets of the headers from h on. */
  ghost function Offsets(b: seq<char>, h: nat): seq<nat>
    requires Complete(b, h)
    decreases |b| - h
  {
    if Stops(b, h) then [] else
    StrideIs(SizeAt(b, h));
    [h] + Offsets(b, h + Stride(SizeAt(b, h)))
  }

  // ---------- the layout of the archive ----------

  /** Header offsets are multiples of 512, increasing, each past the previous header and data. */
  ghost predicate Spaced(b: seq<char>, h: nat, o: seq<nat>) {
    && (forall i :: 0 <= i < |o| ==> h <= o[i] && o[i] % 512 == 0 && o[i] + 512 <= |b|)
    && (forall i, j :: 0 <= i < j < |o| ==> o[i] + 512 + SizeAt(b, o[i]) <= o[j])
  }

  lemma {:induction false} OffsetsSpaced(b: seq<char>, h: nat)
    requires Complete(b, h) && h % 512 == 0
    ensures Spaced(b, h, Offsets(b, h))
    decreases |b| - h
  {
    hide Stride, CStr, StrtolSpec, U32, Spaced;
    if Stops(b, h) {
      NoneSpaced(b, h);
    } else {
      StrideIs(SizeAt(b, h));
      var next := h + Stride(SizeAt(b, h));
      OffsetsSpaced(b, next);
      SpacedFirst(b, h, next, Offsets(b, next));
    }
  }

  lemma NoneSpaced(b: seq<char>, h: nat)
    ensures Spaced(b, h, [])
  {
  }

  lemma SpacedFirst(b: seq<char>, h: nat, next: nat, o: seq<nat>)
    requires h + 512 <= |b| && h % 512 == 0 && h + 512 + SizeAt(b, h) <= next && Spaced(b, next, o)
    ensures Spaced(b, h, [h] + o)
  {
    hide SizeAt;
    var p := [h] + o;
    assert forall i :: 0 < i < |p| ==> p[i] == o[i - 1];
  }

  lemma {:induction false} EntryOrigin(b: seq<char>, h: nat, i: nat) returns (k: nat)
    requires Complete(b, h) && i < |Entries(b, h)|
    ensures k < |Offsets(b, h)| && Offsets(b, h)[k] + 512 <= |b| && Entries(b, h)[i] == EntryAt(b, Offsets(b, h)[k])
    ensures i <= k
    decreases |b| - h
  {
    hide Stride, CStr, StrtolSpec, U32, EntryAt, Skipped, SizeAt;
    StrideIs(SizeAt(b, h));
    var next := h + Stride(SizeAt(b, h));
    var skip := if Skipped(b, h) then [] else [EntryAt(b, h)];
    assert Entries(b, h) == skip + Entries(b, next);
    assert Offsets(b, h) == [h] + Offsets(b, next);
    if i < |skip| {
      k := 0;
    } else {
      var j := EntryOrigin(b, next, i - |skip|);
      k := j + 1;
    }
  }

  /** The data of one member meets no other member's header or data. */
  lemma SlicesApart(b: seq<char>, i: nat, j: nat)
    requires Complete(b, 0) && i < |Offsets(b, 0)| && j < |Offsets(b, 0)| && i != j
    ensures var x, y := Offsets(b, 0)[i], Offsets(b, 0)[j];
            && x + 512 <= |b| && y + 512 <= |b|
            && (x + 512 + SizeAt(b, x) <= y || y + 512 + SizeAt(b, y) <= x)
  {
    hide SizeAt;
    OffsetsSpaced(b, 0);
    assert Spaced(b, 0, Offsets(b, 0));
  }

  // ---------- the parser ----------

  /** Only characters of [lo, hi) may differ. */
  ghost predicate SameOutside(b: seq<char>, b': seq<char>, lo: nat, hi: nat) {
    |b| == |b'| && forall x :: 0 <= x < |b| && !(lo <= x < hi) ==> b'[x] == b[x]
  }

  lemma SameOutsideTrans(b: seq<char>, b': seq<char>, b'': seq<char>, lo: nat, hi: nat)
    requires SameOutside(b, b', lo, hi) && SameOutside(b', b'', lo, hi)
    ensures SameOutside(b, b'', lo, hi)
  {
  }

  lemma CutInside(c: seq<char>, i: nat, c': seq<char>, tok: nat, last: nat, lo: nat, hi: nat)
    requires Cut(c, i, "/", c', tok, last) && lo <= i && i + |CStr(c, i)| < hi
    ensures SameOutside(c, c', lo, hi) && lo <= last && last + |CStr(c', last)| < hi && lo <= tok
            && tok + |CStr(c', tok)| < hi
  {
    hide Segments, CStr, Terminated;
    TokenExtent(c, i, c', tok, last);
  }

  lemma TokenExtent(c: seq<char>, i: nat, c': seq<char>, tok: nat, last: nat)
    requires Cut(c, i, "/", c', tok, last)
    ensures tok + |CStr(c', tok)| <= i + |CStr(c, i)|
  {
    var e := TokenEnd(c, tok, "/");
    hide Segments, TokenEnd;
    assert c'[e] == NUL;
    EndBound(c', tok, e);
  }

  lemma {:induction false} EndBound(c: seq<char>, i: nat, e: nat)
    requires i <= e < |c| && c[e] == NUL
    ensures i + |CStr(c, i)| <= e
    decreases e - i
  {
    if i < e && c[i] != NUL {
      EndBound(c, i + 1, e);
    }
  }

  /** What the token loop has reached: n parts of the path exist and `parent` is the node they lead to. */
  ghost predicate Reached(fsys: FileSystem, fs: Fs, segs: Path, n: nat, parent: nat)
    reads fsys
  {
    && n <= |segs| && Represents(fsys.nodes, fsys.kids, fsys.root, fs)
    && parent != 0 && parent in fsys.kids && Walk(fsys.nodes, fsys.kids, fsys.root, segs[..n]) == parent
  }

  /** The file system after n parts: those parts made directories, or untouched for a file entry. */
  ghost predicate Progress(fs0: Fs, fs: Fs, segs: Path, n: nat, isDir: bool) {
    && n <= |segs|
    && (if isDir then fs == AddDir(fs0, segs[..n]) else fs == fs0)
    && forall k :: 1 <= k <= n ==> segs[..k] in fs
  }

  lemma ProgressStart(fs0: Fs, segs: Path, isDir: bool)
    ensures Progress(fs0, fs0, segs, 0, isDir)
  {
  }

  lemma ProgressFound(fs0: Fs, fs: Fs, segs: Path, n: nat, isDir: bool)
    requires Progress(fs0, fs, segs, n, isDir) && n < |segs| && segs[..n + 1] in fs
    ensures Progress(fs0, fs, segs, n + 1, isDir)
  {
    assert segs[..n + 1][..n] == segs[..n];
  }

  lemma ProgressMade(fs0: Fs, fs: Fs, segs: Path, n: nat)
    requires Progress(fs0, fs, segs, n, true) && n < |segs| && segs[..n + 1] !in fs
    ensures Progress(fs0, fs[segs[..n + 1] := Dir], segs, n + 1, true)
  {
    assert segs[..n + 1][..n] == segs[..n];
  }

  /** Where a search for the next part leads. */
  lemma SearchMeans(nodes: Nodes, kids: Kids, depth: map<nat, nat>, root: nat, fs: Fs, segs: Path, n: nat, parent: nat)
    requires TreeOk(nodes, kids, depth, root) && Represents(nodes, kids, root, fs)
    requires n < |segs| && Walk(nodes, kids, root, segs[..n]) == parent
    ensures segs[..n + 1] == segs[..n] + [segs[n]]
    ensures var d := Down(nodes, kids, parent, segs[n]);
            && d == Walk(nodes, kids, root, segs[..n + 1])
            && (d != 0 <==> segs[..n + 1] in fs) && (d != 0 ==> d in kids)
  {
    hide TreeOk;
    assert segs[..n + 1] == segs[..n] + [segs[n]];
    WalkStep(nodes, kids, root, segs[..n], segs[n]);
    WalkIn(nodes, kids, depth, root, segs[..n + 1]);
    assert PathOk(nodes, kids, root, fs, segs[..n + 1]);
  }

  /** One turn of the token loop: look the part up, and create it if this is a directory entry. */
  method Enter(fsys: FileSystem, token: cstring, parent: nat, isDir: bool, ghost fs0: Fs, ghost fs: Fs,
               ghost segs: Path, ghost n: nat)
    returns (err: int, sub: nat, ghost fs': Fs)
    requires fsys.Valid() && Reached(fsys, fs, segs, n, parent) && Progress(fs0, fs, segs, n, isDir)
    requires n < |segs| && token == segs[n]
    modifies fsys
    ensures fsys.Valid() && fsys.root == old(fsys.root)
    ensures err != 0 ==> fsys.budget < 2
    ensures err == 0 && sub != 0 ==> Reached(fsys, fs', segs, n + 1, sub) && Progress(fs0, fs', segs, n + 1, isDir)
    ensures err == 0 && sub == 0 ==> !isDir && fs' == fs && segs[..n + 1] !in fs && Reached(fsys, fs, segs, n, parent)
  {
    hide TreeOk, Represents, Walk, Down, Created, Progress;
    fs' := fs;
    err := 0;
    SearchMeans(fsys.nodes, fsys.kids, fsys.depth, fsys.root, fs, segs, n, parent);
    sub := fsys.SearchNode(parent, token);
    if sub == 0 {
      if isDir {
        ghost var nodes, kids, depth := fsys.nodes, fsys.kids, fsys.depth;
        err, sub := fsys.Create(parent, token, true);
        if err != 0 {
          return;
        }
        CreateRepresents(nodes, kids, fsys.nodes, fsys.kids, depth, fsys.root, fs, parent, sub, token, true, segs[..n]);
        ProgressMade(fs0, fs, segs, n);
        fs' := fs[segs[..n + 1] := Dir];
        assert sub != 0 && sub in fsys.kids by {
          CreatedIn(nodes, kids, fsys.nodes, fsys.kids, parent, sub, token, true);
        }
      }
    } else {
      ProgressFound(fs0, fs, segs, n, isDir);
    }
  }

  lemma CreatedIn(nodes: Nodes, kids: Kids, nodes': Nodes, kids': Kids, parent: nat, node: nat, name: cstring,
                  isDir: bool)
    requires Created(nodes, kids, nodes', kids', parent, node, name, isDir)
    ensures node != 0 && node in kids' && node in nodes'
  {
  }

  /** The token loop of ramfs_parse over the name at `start`. It ends with all parts entered, or, for a
      file entry, at the first part that does not exist, still held as a token. */
  method EnterAll(fsys: FileSystem, tk: Tokenizer, archive: array<char>, start: nat, isDir: bool,
                  ghost fs0: Fs, ghost segs: Path, ghost hi: nat)
    returns (err: int, found: bool, tok: nat, parent: nat, ghost fs: Fs, ghost n: nat)
    requires fsys.Valid() && tk.Ready() && Represents(fsys.nodes, fsys.kids, fsys.root, fs0)
    requires start <= archive.Length && Terminated(archive[..], start) && start + |CStr(archive[..], start)| < hi
    requires Segments(CStr(archive[..], start), "/") == segs && segs != []
    modifies fsys, tk, tk.buf, archive
    ensures fsys.Valid() && tk.Ready() && fsys.root == old(fsys.root) && tk.buf == archive
    ensures SameOutside(old(archive[..]), archive[..], start, hi)
    ensures err != 0 ==> fsys.budget < 2
    ensures err == 0 ==> Reached(fsys, fs, segs, n, parent) && Progress(fs0, fs, segs, n, isDir)
    ensures err == 0 && !found ==> n == |segs| && Segments(CStr(archive[..], tk.last), "/") == []
    ensures err == 0 && found ==> !isDir && n < |segs| && segs[..n + 1] !in fs
    ensures err == 0 && found ==> start <= tok <= archive.Length && Terminated(archive[..], tok)
    ensures err == 0 && found ==> CStr(archive[..], tok) == segs[n] && tok + |CStr(archive[..], tok)| < hi
  {
    hide TreeOk, Represents, Walk, Segments, CStr, Terminated, Cut, Progress, SameOutside;
    RootPositive(fsys.nodes, fsys.kids, fsys.depth, fsys.root);
    ProgressStart(fs0, segs, isDir);
    WalkNothing(fsys.nodes, fsys.kids, fsys.root);
    RootInTree(fsys.nodes, fsys.kids, fsys.depth, fsys.root);
    err, fs, n := 0, fs0, 0;
    parent := fsys.root;
    ghost var before, c := archive[..], archive[..];
    assert segs[..0] == [] && segs[0..] == segs;
    found, tok := tk.First(archive, start, "/");
    NextToken(c, start, archive[..], tok, tk.last, segs, 0);
    CutInside(c, start, archive[..], tok, tk.last, start, hi);
    while found
      invariant fsys.Valid() && tk.Ready() && tk.buf == archive && fsys.root == old(fsys.root) && err == 0
      invariant SameOutside(before, archive[..], start, hi)
      invariant Reached(fsys, fs, segs, n, parent) && Progress(fs0, fs, segs, n, isDir)
      invariant start <= tk.last <= archive.Length && tk.last + |CStr(archive[..], tk.last)| < hi
      invariant found ==>
                  n < |segs| && tok <= archive.Length && Terminated(archive[..], tok)
                  && CStr(archive[..], tok) == segs[n]
      invariant found ==>
                  start <= tok && tok + |CStr(archive[..], tok)| < hi
                  && Segments(CStr(archive[..], tk.last), "/") == segs[n + 1..]
      invariant !found ==> n == |segs| && Segments(CStr(archive[..], tk.last), "/") == []
      decreases |segs| - n
    {
      var token := ReadString(archive, tok);
      var sub;
      ghost var fs';
      err, sub, fs' := Enter(fsys, token, parent, isDir, fs0, fs, segs, n);
      if err != 0 || sub == 0 {
        return;
      }
      parent, fs, n := sub, fs', n + 1;
      c := archive[..];
      ghost var last := tk.last;
      found, tok := tk.Next("/");
      if found {
        NextToken(c, last, archive[..], tok, tk.last, segs, n);
        CutInside(c, last, archive[..], tok, tk.last, start, hi);
        SameOutsideTrans(before, c, archive[..], start, hi);
      }
    }
  }

  lemma RootInTree(nodes: Nodes, kids: Kids, depth: map<nat, nat>, root: nat)
    requires TreeOk(nodes, kids, depth, root)
    ensures root in kids
  {
  }

  /** The second half of a file entry: strtok once more, create the file, record its size and data. */
  method AddFileNode(fsys: FileSystem, tk: Tokenizer, archive: array<char>, found: bool, tok: nat, parent: nat,
                     size: nat, data: nat,
                     ghost fs: Fs, ghost segs: Path, ghost n: nat, ghost lo: nat, ghost hi: nat)
    returns (err: int, ghost fs': Fs)
    requires fsys.Valid() && tk.Ready() && tk.buf == archive && Reached(fsys, fs, segs, n, parent)
             && Progress(fs, fs, segs, n, false)
    requires !found ==> n == |segs| && Segments(CStr(archive[..], tk.last), "/") == []
    requires found ==> n < |segs| && segs[..n + 1] !in fs && lo <= tok <= archive.Length && Terminated(archive[..], tok)
    requires found ==> CStr(archive[..], tok) == segs[n] && IsName(segs[n]) && tok + |segs[n]| < hi
    modifies fsys, tk, archive
    ensures fsys.Valid() && tk.Ready() && fsys.root == old(fsys.root) && tk.buf == archive
    ensures SameOutside(old(archive[..]), archive[..], lo, hi)
    ensures err != 0 ==> fsys.budget < 2
    ensures err == 0 ==> fs' == AddFile(fs, segs, size, data) && Represents(fsys.nodes, fsys.kids, fsys.root, fs')
  {
    hide TreeOk, Represents, Walk, Segments, CStr, Terminated, Cut, Created, Down, Progress;
    err, fs' := 0, fs;
    AddFileIs(fs, segs, n, size, data);
    if !found {
      var again, at := tk.Next("/");
      return;
    }
    ghost var c := archive[..];
    WholeName(segs[n]);
    var again: bool, at: nat := tk.First(archive, tok, "/");
    assert segs[n..n + 1] == [segs[n]];
    NextToken(c, tok, archive[..], at, tk.last, [segs[n]], 0);
    CutInside(c, tok, archive[..], at, tk.last, lo, hi);
    var name := ReadString(archive, at);
    SearchMeans(fsys.nodes, fsys.kids, fsys.depth, fsys.root, fs, segs, n, parent);
    ghost var nodes, kids, depth := fsys.nodes, fsys.kids, fsys.depth;
    var node;
    err, node := fsys.Create(parent, name, false);
    if err != 0 {
      return;
    }
    CreateRepresents(nodes, kids, fsys.nodes, fsys.kids, depth, fsys.root, fs, parent, node, name, false, segs[..n]);
    CreatedIn(nodes, kids, fsys.nodes, fsys.kids, parent, node, name, false);
    fs' := fs[segs[..n + 1] := File(0, 0)];
    FillTree(fsys.nodes, fsys.kids, fsys.depth, fsys.root, node, size, data);
    FillRepresents(fsys.nodes, fsys.kids, fsys.depth, fsys.root, fs', node, size, data, segs[..n + 1]);
    fsys.nodes := fsys.nodes[node := fsys.nodes[node].(size := size, data := data)];
    fs' := fs'[segs[..n + 1] := File(size, data)];
    assert fs' == fs[segs[..n + 1] := File(size, data)];
  }

  /** A name that can be a path component. */
  predicate IsName(s: string) {
    s != [] && '/' !in s
  }

  lemma WholeName(s: string)
    requires IsName(s)
    ensures Segments(s, "/") == [s]
  {
    assert Span(s, "/") == 0;
    CoSpanUnique(s, "/", |s|);
    assert s[..|s|] == s && s[|s|..] == [];
    assert Segments([], "/") == [];
    assert s[0..] == s;
  }

  /** AddFile, when the first n parts exist and the next, if any, does not. */
  lemma AddFileIs(fs: Fs, segs: Path, n: nat, size: nat, data: nat)
    requires Progress(fs, fs, segs, n, false) && (n == |segs| || segs[..n + 1] !in fs)
    ensures AddFile(fs, segs, size, data) == if n == |segs| then fs else fs[segs[..n + 1] := File(size, data)]
  {
    var m := FirstMissing(fs, segs, 1);
    assert n < |segs| ==> m == n + 1;
  }

  lemma {:induction false} SegmentsAreNames(t: string, i: nat)
    requires i < |Segments(t, "/")|
    ensures IsName(Segments(t, "/")[i])
    decreases |t|
  {
    hide Segments;
    var u := t[Span(t, "/")..];
    var n := CoSpan(u, "/");
    UnfoldSegments(t, "/");
    if i == 0 {
      SpanFacts(t, "/");
      SliceIsName(u, n);
    } else {
      SegmentsAreNames(u[n..], i - 1);
    }
  }

  lemma SliceIsName(u: string, n: nat)
    requires n == CoSpan(u, "/") && u != [] && u[0] !in "/"
    ensures n > 0 && IsName(u[..n])
  {
    CoSpanFacts(u, "/");
    forall k | 0 <= k < n ensures u[k] != '/' {
      assert u[k] !in "/" && '/' in "/";
    }
  }

  /** The name field of a sound header holds its name. */
  lemma NameFits(b: seq<char>, h: nat)
    requires HeaderOk(b, h)
    ensures var s := NameStart(b, h);
            h <= s && s <= |b| && Terminated(b, s) && s + |CStr(b, s)| < h + 100
  {
    var k :| h <= k < h + 100 && b[k] == NUL;
    var s := NameStart(b, h);
    assert s <= k;
    EndsAt(b, s, k);
    EndBound(b, s, k);
  }

  /** One turn of the archive loop for a header at h. */
  method ParseEntry(fsys: FileSystem, tk: Tokenizer, archive: array<char>, h: nat, size: nat, ghost b: seq<char>,
                    ghost fs: Fs)
    returns (err: int, ghost fs': Fs)
    requires fsys.Valid() && tk.Ready() && Represents(fsys.nodes, fsys.kids, fsys.root, fs)
    requires HeaderOk(b, h) && archive[..] == b && size == SizeAt(b, h)
    modifies fsys, tk, tk.buf, archive
    ensures fsys.Valid() && tk.Ready() && fsys.root == old(fsys.root) && (tk.buf == old(tk.buf) || tk.buf == archive)
    ensures SameOutside(b, archive[..], h, h + 100)
    ensures err != 0 ==> fsys.budget < 2
    ensures err == 0 ==>
              fs' == (if Skipped(b, h) then fs else AddEntry(fs, EntryAt(b, h)))
              && Represents(fsys.nodes, fsys.kids, fsys.root, fs')
  {
    hide TreeOk, Represents, Segments, CStr, Terminated, AddDir, AddFile, Progress;
    err, fs' := 0, fs;
    var isDir := archive[h + 156] == '5';
    var start := h;
    if archive[h] == '.' && archive[h + 1] == '/' {
      start := start + 2;
    }
    NameFits(b, h);
    var name := ReadString(archive, start);
    if |name| == 0 || name == "." {
      return;
    }
    ghost var segs := Segments(name, "/");
    var found, tok, parent;
    ghost var mid, n;
    err, found, tok, parent, mid, n := EnterAll(fsys, tk, archive, start, isDir, fs, segs, h + 100);
    Widen(b, archive[..], start, h, h + 100);
    if err != 0 {
      return;
    }
    fs' := mid;
    assert segs[..|segs|] == segs;
    if !isDir {
      ProgressFile(fs, mid, segs, n);
      if found { SegmentsAreNames(name, n); }
      ghost var c := archive[..];
      err, fs' := AddFileNode(fsys, tk, archive, found, tok, parent, size, h + 512, mid, segs, n, h, h + 100);
      SameOutsideTrans(b, c, archive[..], h, h + 100);
    } else {
      ProgressDir(fs, mid, segs, n);
    }
  }

  lemma ProgressFile(fs0: Fs, fs: Fs, segs: Path, n: nat)
    requires Progress(fs0, fs, segs, n, false)
    ensures fs == fs0
  {
  }

  lemma ProgressDir(fs0: Fs, fs: Fs, segs: Path, n: nat)
    requires Progress(fs0, fs, segs, n, true)
    ensures n <= |segs| && fs == AddDir(fs0, segs[..n])
  {
  }

  lemma Widen(b: seq<char>, b': seq<char>, lo: nat, lo': nat, hi: nat)
    requires SameOutside(b, b', lo, hi) && lo' <= lo
    ensures SameOutside(b, b', lo', hi)
  {
  }

  /** Nothing but the name fields of the given headers differs. */
  ghost predicate OnlyNames(b: seq<char>, b': seq<char>, heads: seq<nat>) {
    |b| == |b'| && forall x :: 0 <= x < |b| && b'[x] != b[x] ==>
        exists i :: 0 <= i < |heads| && heads[i] <= x < heads[i] + 100
  }

  lemma OnlyNamesNext(b: seq<char>, c: seq<char>, c': seq<char>, heads: seq<nat>, h: nat)
    requires OnlyNames(b, c, heads) && SameOutside(c, c', h, h + 100)
    ensures OnlyNames(b, c', heads + [h])
  {
    var heads' := heads + [h];
    forall x | 0 <= x < |b| && c'[x] != b[x]
      ensures exists i :: 0 <= i < |heads'| && heads'[i] <= x < heads'[i] + 100
    {
      if h <= x < h + 100 {
        assert heads'[|heads|] <= x < heads'[|heads|] + 100;
      } else {
        assert c[x] != b[x];
        var i :| 0 <= i < |heads| && heads[i] <= x < heads[i] + 100;
        assert heads'[i] <= x < heads'[i] + 100;
      }
    }
  }

  /** The part of the archive still to be read is as it was. */
  lemma SameAhead(b: seq<char>, c: seq<char>, h: nat)
    requires |b| == |c| && h <= |b| && b[h..] == c[h..] && HeaderOk(b, h)
    ensures HeaderOk(c, h) && h + 512 <= |b| && Terminated(c, h + 100) && Terminated(c, h + 124)
    ensures SizeAt(c, h) == SizeAt(b, h) == U32(StrtolSpec(CStr(c, h + 124), 8)) && Skipped(c, h) == Skipped(b, h)
    ensures EntryAt(c, h) == EntryAt(b, h)
  {
    hide Terminated, Segments, StrtolSpec, CStr;
    SameChars(b, c, h);
    TailAt(b, c, h, h + 100);
    TailAt(b, c, h, h + 124);
    TailAt(b, c, h, h);
    TailAt(b, c, h, h + 2);
    var k :| h <= k < h + 100 && b[k] == NUL;
    assert c[k] == NUL;
  }

  lemma SameChars(b: seq<char>, c: seq<char>, h: nat)
    requires |b| == |c| && h <= |b| && b[h..] == c[h..]
    ensures forall x :: h <= x < |b| ==> b[x] == c[x]
  {
    forall x | h <= x < |b| ensures b[x] == c[x] {
      assert b[h..][x - h] == c[h..][x - h];
    }
  }

  lemma TailAt(b: seq<char>, c: seq<char>, h: nat, i: nat)
    requires |b| == |c| && h <= i <= |b| && b[h..] == c[h..]
    ensures CStr(b, i) == CStr(c, i) && (Terminated(b, i) ==> Terminated(c, i))
  {
    hide Terminated, CStr;
    assert b[i..] == b[h..][i - h..] && c[i..] == c[h..][i - h..];
    SameTail(b, c, i);
  }

  /** Where the parse stands: `es` and `heads` have been dealt with, the rest of the archive is intact. */
  ghost predicate Parsed(b: seq<char>, c: seq<char>, offset: nat, es: seq<Entry>, heads: seq<nat>, fs0: Fs, fs: Fs) {
    && |c| == |b| && offset % 512 == 0 && (offset <= |b| ==> c[offset..] == b[offset..])
    && Complete(b, offset) && Complete(b, 0)
    && es + Entries(b, offset) == Entries(b, 0) && heads + Offsets(b, offset) == Offsets(b, 0)
    && fs == AddAll(fs0, es) && OnlyNames(b, c, heads)
  }

  /** ramfs_parse: over every well-formed archive it ends, and the tree then represents exactly what the
      archive's entries say, in order. In the archive itself only name fields were cut up. */
  method Parse(fsys: FileSystem, tk: Tokenizer, archive: array<char>, ghost fs0: Fs) returns (ret: int, ghost fs: Fs)
    requires fsys.Valid() && tk.Ready() && Represents(fsys.nodes, fsys.kids, fsys.root, fs0)
    requires Complete(archive[..], 0)
    modifies fsys, tk, tk.buf, archive
    ensures fsys.Valid() && tk.Ready() && fsys.root == old(fsys.root)
    ensures ret == 0 ==>
              fs == AddAll(fs0, Entries(old(archive[..]), 0)) && Represents(fsys.nodes, fsys.kids, fsys.root, fs)
    ensures ret != 0 ==> archive.Length == 0 || fsys.budget < 2
    ensures OnlyNames(old(archive[..]), archive[..], Offsets(old(archive[..]), 0))
  {
    hide TreeOk, Represents, CStr, HeaderOk, SizeAt, StrtolSpec, OnlyNames, EntryAt, Skipped, Stride, Terminated,
      Parsed, AddEntry, Complete, SameOutside;
    ret, fs := 0, fs0;
    ghost var b := archive[..];
    StartParse(b, fs0);
    if archive.Length == 0 {
      EndParse(b, b, 0, [], [], fs0, fs0);
      return 1, fs0;
    }
    var offset: nat := 0;
    ghost var es: seq<Entry>, heads: seq<nat> := [], [];
    while offset < archive.Length
      invariant fsys.Valid() && tk.Ready() && fsys.root == old(fsys.root)
                && (tk.buf == old(tk.buf) || tk.buf == archive)
      invariant archive.Length == |b| && Parsed(b, archive[..], offset, es, heads, fs0, fs)
      invariant Represents(fsys.nodes, fsys.kids, fsys.root, fs)
      decreases archive.Length - offset
    {
      ghost var c := archive[..];
      StepParse(b, c, offset, es, heads, fs0, fs);
      if archive[offset] == NUL {
        break;
      }
      var value := Strtol(archive[..], offset + 124, 8);
      var size := U32(value);
      var mode := Strtol(archive[..], offset + 100, 8);
      ghost var fs';
      ret, fs' := ParseEntry(fsys, tk, archive, offset, size, c, fs);
      ParsedNext(b, c, archive[..], offset, es, heads, fs0, fs);
      if ret != 0 {
        return;
      }
      if !Skipped(c, offset) {
        es := es + [EntryAt(c, offset)];
      }
      fs, heads := fs', heads + [offset];
      offset := offset + Stride(size);
    }
    EndParse(b, archive[..], offset, es, heads, fs0, fs);
  }

  lemma StartParse(b: seq<char>, fs0: Fs)
    requires Complete(b, 0)
    ensures Parsed(b, b, 0, [], [], fs0, fs0)
  {
    assert [] + Entries(b, 0) == Entries(b, 0) && [] + Offsets(b, 0) == Offsets(b, 0) && b[0..] == b;
  }

  lemma EndParse(b: seq<char>, c: seq<char>, h: nat, es: seq<Entry>, heads: seq<nat>, fs0: Fs, fs: Fs)
    requires Parsed(b, c, h, es, heads, fs0, fs) && (h >= |b| || b[h] == NUL)
    ensures Complete(b, 0) && fs == AddAll(fs0, Entries(b, 0)) && OnlyNames(b, c, Offsets(b, 0))
  {
    assert es + [] == es && heads + [] == heads;
  }

  /** What is known of the header the parse stands at. */
  lemma StepParse(b: seq<char>, c: seq<char>, h: nat, es: seq<Entry>, heads: seq<nat>, fs0: Fs, fs: Fs)
    requires Parsed(b, c, h, es, heads, fs0, fs) && h < |b|
    ensures |c| == |b| && c[h] == b[h]
    ensures c[h] != NUL ==> HeaderOk(c, h) && h + 512 <= |c| && Terminated(c, h + 100) && Terminated(c, h + 124)
    ensures c[h] != NUL ==> SizeAt(c, h) == U32(StrtolSpec(CStr(c, h + 124), 8)) && 512 <= Stride(SizeAt(c, h))
  {
    hide Entries, Offsets, AddAll, OnlyNames, Stride, StrtolSpec, CStr, Terminated;
    SameChars(b, c, h);
    if c[h] != NUL {
      AtHeader(b, h);
      SameAhead(b, c, h);
      StrideIs(SizeAt(b, h));
    }
  }

  lemma AtHeader(b: seq<char>, h: nat)
    requires Complete(b, h) && h < |b| && b[h] != NUL
    ensures HeaderOk(b, h)
  {
  }

  lemma NextHeader(b: seq<char>, h: nat, next: nat)
    requires Complete(b, h) && h < |b| && b[h] != NUL && h + 512 <= |b| && next == h + Stride(SizeAt(b, h))
    ensures Complete(b, next) && Offsets(b, h) == [h] + Offsets(b, next)
    ensures Entries(b, h) == (if Skipped(b, h) then [] else [EntryAt(b, h)]) + Entries(b, next)
  {
    hide Stride, SizeAt, Skipped, EntryAt;
  }

  /** One header further. */
  lemma ParsedNext(b: seq<char>, c: seq<char>, c': seq<char>, h: nat, es: seq<Entry>, heads: seq<nat>, fs0: Fs, fs: Fs)
    requires Parsed(b, c, h, es, heads, fs0, fs) && h < |b| && c[h] != NUL && h + 512 <= |b|
    requires SameOutside(c, c', h, h + 100)
    ensures var es' := if Skipped(c, h) then es else es + [EntryAt(c, h)];
            var fs' := if Skipped(c, h) then fs else AddEntry(fs, EntryAt(c, h));
            Parsed(b, c', h + Stride(SizeAt(c, h)), es', heads + [h], fs0, fs')
    ensures OnlyNames(b, c', Offsets(b, 0))
  {
    hide Entries, Offsets, AddAll, OnlyNames, Stride, SizeAt, Skipped, EntryAt, HeaderOk, AddEntry, Complete,
      SameOutside, StrtolSpec, CStr, Terminated;
    SameChars(b, c, h);
    AtHeader(b, h);
    SameAhead(b, c, h);
    assert SizeAt(b, h) + 1023 < 0x1_0000_0000 by { SizeBound(b, h); }
    StrideIs(SizeAt(b, h));
    var next := h + Stride(SizeAt(b, h));
    NextHeader(b, h, next);
    OnlyNamesNext(b, c, c', heads, h);
    AddAllLast(fs0, es, EntryAt(b, h));
    AheadStays(b, c, c', h, next);
    Assoc(es, if Skipped(b, h) then [] else [EntryAt(b, h)], Entries(b, next));
    Assoc(heads, [h], Offsets(b, next));
    PrefixNames(b, c', heads + [h], Offsets(b, next));
  }

  lemma Assoc<T>(a: seq<T>, b: seq<T>, c: seq<T>)
    ensures a + (b + c) == (a + b) + c && a + [] == a
  {
  }

  lemma SizeBound(b: seq<char>, h: nat)
    requires HeaderOk(b, h)
    ensures SizeAt(b, h) + 1023 < 0x1_0000_0000
  {
  }

  lemma PrefixNames(b: seq<char>, c: seq<char>, heads: seq<nat>, more: seq<nat>)
    requires OnlyNames(b, c, heads)
    ensures OnlyNames(b, c, heads + more)
  {
    forall x | 0 <= x < |b| && c[x] != b[x]
      ensures exists i :: 0 <= i < |heads + more| && (heads + more)[i] <= x < (heads + more)[i] + 100
    {
      var i :| 0 <= i < |heads| && heads[i] <= x < heads[i] + 100;
      assert (heads + more)[i] <= x < (heads + more)[i] + 100;
    }
  }

  lemma AheadStays(b: seq<char>, c: seq<char>, c': seq<char>, h: nat, next: nat)
    requires |b| == |c| && h <= |b| && c[h..] == b[h..] && SameOutside(c, c', h, h + 100) && h + 100 <= next
    ensures next <= |b| ==> c'[next..] == b[next..]
  {
    if next <= |b| {
      assert c[next..] == c[h..][next - h..] && b[next..] == b[h..][next - h..];
      assert c'[next..] == c[next..];
    }
  }

  /** ramfs_init: the root is emptied and the archive parsed into it. */
  method Init(fsys: FileSystem, tk: Tokenizer, archive: array<char>) returns (ret: int)
    requires fsys.Valid() && tk.Ready() && Complete(archive[..], 0)
    modifies fsys, tk, tk.buf, archive
    ensures fsys.Valid() && tk.Ready() && fsys.root == old(fsys.root)
    ensures ret == 0 ==> Represents(fsys.nodes, fsys.kids, fsys.root,
                AddAll(map[[] := Dir], Entries(old(archive[..]), 0)))
    ensures ret != 0 ==> archive.Length == 0 || fsys.budget < 2
    ensures OnlyNames(old(archive[..]), archive[..], Offsets(old(archive[..]), 0))
  {
    hide TreeOk, Represents, Complete, AddAll, OnlyNames, Entries, Offsets;
    if archive.Length == 0 {
      NothingChanged(archive[..]);
      return 1;
    }
    ClearRoot(fsys.nodes, fsys.kids, fsys.depth, fsys.root, archive.Length);
    var root := fsys.nodes[fsys.root];
    fsys.nodes := fsys.nodes[fsys.root := root.(isDir := true, size := archive.Length, child := 0, next := 0)];
    fsys.kids := fsys.kids[fsys.root := []];
    ghost var fs;
    ret, fs := Parse(fsys, tk, archive, map[[] := Dir]);
  }

  lemma NothingChanged(b: seq<char>)
    requires Complete(b, 0)
    ensures OnlyNames(b, b, Offsets(b, 0))
  {
  }

  lemma ClearRoot(nodes: Nodes, kids: Kids, depth: map<nat, nat>, root: nat, size: nat)
    requires TreeOk(nodes, kids, depth, root)
    ensures root in nodes && root in kids
    ensures var nodes' := nodes[root := nodes[root].(isDir := true, size := size, child := 0, next := 0)];
            TreeOk(nodes', kids[root := []], depth, root) && Represents(nodes', kids[root := []], root, map[[] := Dir])
  {
    NodeFacts(nodes, kids, depth, root, root);
    var nodes' := nodes[root := nodes[root].(isDir := true, size := size, child := 0, next := 0)];
    var kids' := kids[root := []];
    forall n | n in kids' ensures NodeOk(nodes', kids', depth, n) {
      NodeFacts(nodes, kids, depth, root, n);
      forall i | 0 <= i < |kids'[n]| ensures ChildOk(nodes', kids', depth, n, i) {
        ChildFacts(nodes, kids, depth, root, n, i);
      }
    }
    RootPositive(nodes, kids, depth, root);
    forall q: Path ensures PathOk(nodes', kids', root, map[[] := Dir], q) {
      EmptyWalk(nodes', kids', root, q);
    }
  }

  // ---------- end to end ----------

  /** After a successful parse of an archive that lists directories before their contents, looking up
      any listed directory finds a directory, and looking up any listed file finds a file with the size
      and the data position of the first entry for that path. */
  lemma EveryMemberFound(nodes: Nodes, kids: Kids, root: nat, b: seq<char>, i: nat)
    requires Complete(b, 0) && WellOrdered(Entries(b, 0)) && i < |Entries(b, 0)|
    requires Represents(nodes, kids, root, AddAll(map[[] := Dir], Entries(b, 0)))
    ensures var e := Entries(b, 0)[i];
            var n := Walk(nodes, kids, root, e.path);
            && n != 0 && n in nodes
            && (e.isDir ==> nodes[n].isDir)
            && (!e.isDir && FirstListing(Entries(b, 0), i) ==>
                !nodes[n].isDir && nodes[n].size == e.size && nodes[n].data == e.data)
  {
    hide Complete, WellOrdered, AddAll, Entries, Walk;
    EveryEntryFound(Entries(b, 0), i);
    assert PathOk(nodes, kids, root, AddAll(map[[] := Dir], Entries(b, 0)), Entries(b, 0)[i].path);
  }

  /** The data of the entries lies at increasing places. */
  lemma {:induction false} EntriesInOrder(b: seq<char>, h: nat)
    requires Complete(b, h)
    ensures forall i :: 0 <= i < |Entries(b, h)| ==> h + 512 <= Entries(b, h)[i].data
    ensures forall i, j :: 0 <= i < j < |Entries(b, h)| ==> Entries(b, h)[i].data < Entries(b, h)[j].data
    ensures forall i :: 0 <= i < |Entries(b, h)| ==> Entries(b, h)[i].path != []
    decreases |b| - h
  {
    hide Stride, CStr, StrtolSpec, U32, SizeAt, Segments;
    if !Stops(b, h) {
      StrideIs(SizeAt(b, h));
      var next := h + Stride(SizeAt(b, h));
      EntriesInOrder(b, next);
      var first, rest := if Skipped(b, h) then [] else [EntryAt(b, h)], Entries(b, next);
      assert Entries(b, h) == first + rest;
      hide Skipped, EntryAt, Complete;
      assert forall i :: |first| <= i < |first + rest| ==> (first + rest)[i] == rest[i - |first|];
    }
  }

  /** For every well-formed archive, whatever its order: after a successful parse a listed file is found at
      its path with its own size and data if and only if, when its turn came, its path was free and all
      its parents were there. */
  lemma MemberFoundExactly(nodes: Nodes, kids: Kids, root: nat, b: seq<char>, i: nat)
    requires Complete(b, 0) && i < |Entries(b, 0)| && !Entries(b, 0)[i].isDir
    requires Represents(nodes, kids, root, AddAll(map[[] := Dir], Entries(b, 0)))
    ensures var e, before := Entries(b, 0)[i], AddAll(map[[] := Dir], Entries(b, 0)[..i]);
            var n := Walk(nodes, kids, root, e.path);
            (n != 0 && n in nodes && !nodes[n].isDir && nodes[n].size == e.size && nodes[n].data == e.data)
            <==> (e.path !in before && ParentsIn(before, e.path))
  {
    hide Complete, AddAll, Entries, Walk, ParentsIn;
    EntriesInOrder(b, 0);
    FileFoundExactly(Entries(b, 0), i);
    assert PathOk(nodes, kids, root, AddAll(map[[] := Dir], Entries(b, 0)), Entries(b, 0)[i].path);
  }

  /** For every well-formed archive, whatever its order: after a successful parse a listed directory is found,
      and is a directory if and only if no file was in its place when its turn came. */
  lemma DirMemberExactly(nodes: Nodes, kids: Kids, root: nat, b: seq<char>, i: nat)
    requires Complete(b, 0) && i < |Entries(b, 0)| && Entries(b, 0)[i].isDir
    requires Represents(nodes, kids, root, AddAll(map[[] := Dir], Entries(b, 0)))
    ensures var p, before := Entries(b, 0)[i].path, AddAll(map[[] := Dir], Entries(b, 0)[..i]);
            var n := Walk(nodes, kids, root, p);
            n != 0 && n in nodes && (nodes[n].isDir <==> !(p in before && before[p].File?))
  {
    hide Complete, AddAll, Entries, Walk;
    EntriesInOrder(b, 0);
    DirFoundExactly(Entries(b, 0), i);
    assert PathOk(nodes, kids, root, AddAll(map[[] := Dir], Entries(b, 0)), Entries(b, 0)[i].path);
  }

  /** Cutting up names leaves every member's data as it was. */
  lemma DataIntact(b: seq<char>, c: seq<char>, k: nat, x: nat)
    requires Complete(b, 0) && OnlyNames(b, c, Offsets(b, 0)) && k < |Offsets(b, 0)|
    requires var h := Offsets(b, 0)[k]; h + 124 <= |b| && h + 512 <= x < h + 512 + SizeAt(b, h) && x < |b|
    ensures c[x] == b[x]
  {
    hide Complete, SizeAt, Offsets;
    OffsetsSpaced(b, 0);
    NamesAvoidData(b, c, Offsets(b, 0), k, x);
  }

  /** Every byte of every member's data is after the parse what it was in the archive. */
  lemma MemberIntact(b: seq<char>, c: seq<char>, i: nat, x: nat)
    requires Complete(b, 0) && OnlyNames(b, c, Offsets(b, 0)) && i < |Entries(b, 0)|
    requires var e := Entries(b, 0)[i]; e.data <= x < e.data + e.size && x < |b|
    ensures c[x] == b[x]
  {
    hide Complete, SizeAt, Offsets, Entries, OnlyNames, Segments, CStr;
    var k := EntryOrigin(b, 0, i);
    DataIntact(b, c, k, x);
  }

  /** The data of different members is disjoint, and no member's data meets any header. */
  lemma MembersApart(b: seq<char>, i: nat, j: nat, k: nat)
    requires Complete(b, 0) && i < |Entries(b, 0)| && j < |Entries(b, 0)| && i != j && k < |Offsets(b, 0)|
    ensures var d, e, h := Entries(b, 0)[i], Entries(b, 0)[j], Offsets(b, 0)[k];
            && (d.data + d.size <= e.data || e.data + e.size <= d.data)
            && (d.data + d.size <= h || h + 512 <= d.data)
  {
    hide Complete, SizeAt, Offsets, Entries, Segments, CStr;
    var x := EntryOrigin(b, 0, i);
    var y := EntryOrigin(b, 0, j);
    EntriesInOrder(b, 0);
    assert x != y;
    SlicesApart(b, x, y);
    if k != x { SlicesApart(b, x, k); }
  }

  lemma NamesAvoidData(b: seq<char>, c: seq<char>, o: seq<nat>, k: nat, x: nat)
    requires Spaced(b, 0, o) && OnlyNames(b, c, o) && k < |o| && x < |b|
    requires o[k] + 124 <= |b| && o[k] + 512 <= x < o[k] + 512 + SizeAt(b, o[k])
    ensures c[x] == b[x]
  {
    hide SizeAt;
    assert forall i :: 0 <= i < |o| ==> !(o[i] <= x < o[i] + 100);
  }
}
