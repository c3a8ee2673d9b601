/** USTAR archives written out: members laid down as headers and data, and what ramfs_parse of
    kernel/src/fs/ramfs.c reads back from them. */
module Archives {
  import opened CStrings
  import opened Vfs
  import opened Initrd
  import opened Ramfs

  /** One member as tar writes it: the name, with "./" in front or not, the type character and the contents. */
  datatype Member = Member(name: string, dot: bool, typeflag: char, body: seq<char>)

  function FieldName(m: Member): string {
    if m.dot then "./" + m.name else m.name
  }

  /** The archive's own root, which is no entry. */
  predicate IsRoot(m: Member) {
    m.name == "" || m.name == "."
  }

  ghost predicate GoodMember(m: Member) {
    && NUL !in m.name && 0 < |FieldName(m)| < 100 && |m.body| < 0x1_0000_0000 - 1023
    && (m.dot || !(|m.name| >= 2 && m.name[0] == '.' && m.name[1] == '/'))
    && (IsRoot(m) || Segments(m.name, "/") != [])
  }

  /** n in k octal digits, with leading zeros. */
  function Octal(n: nat, k: nat): (s: string)
    ensures |s| == k
  {
    if k == 0 then "" else Octal(n / 8, k - 1) + ["01234567"[n % 8]]
  }

  function Padded(n: nat): nat {
    (n + 511) / 512 * 512
  }

  /** The 512 bytes at h are the member's header and the bytes behind them its contents: the name at 0, ended by
      a NUL, eleven octal digits of the size at 124, the type at 156. */
  ghost predicate MemberAt(b: seq<char>, h: nat, m: Member) {
    var t := FieldName(m);
    && h + 512 + |m.body| <= |b| && |t| < 100
    && b[h..h + |t|] == t && b[h + |t|] == NUL
    && b[h + 124..h + 135] == Octal(|m.body|, 11) && b[h + 135] == NUL
    && b[h + 156] == m.typeflag
    && b[h + 512..h + 512 + |m.body|] == m.body
  }

  /** The members follow one another from offset h on, each padded to 512 bytes, up to a NUL or the end. */
  ghost predicate Archive(b: seq<char>, h: nat, ms: seq<Member>)
    decreases |ms|
  {
    if ms == [] then Stops(b, h)
    else MemberAt(b, h, ms[0]) && GoodMember(ms[0]) && Archive(b, h + 512 + Padded(|ms[0].body|), ms[1..])
  }

  /** The entry a member stands for, none for the root. */
  function OwnEntry(m: Member, h: nat): seq<Entry> {
    if IsRoot(m) then [] else [Entry(Segments(m.name, "/"), m.typeflag == '5', |m.body|, h + 512)]
  }

  /** The entries the members stand for. */
  function Listed(ms: seq<Member>, h: nat): seq<Entry>
    decreases |ms|
  {
    if ms == [] then [] else OwnEntry(ms[0], h) + Listed(ms[1..], h + 512 + Padded(|ms[0].body|))
  }

  // ---------- reading a header ----------

  lemma {:induction false} OctalReads(n: nat, k: nat)
    requires n < EightTo(k)
    ensures Value(Octal(n, k), 8) == n && forall i :: 0 <= i < k ==> '0' <= Octal(n, k)[i] <= '7'
  {
    if k > 0 {
      OctalReads(n / 8, k - 1);
      var s := Octal(n, k);
      assert s[..|s| - 1] == Octal(n / 8, k - 1);
      assert DigitValue("01234567"[n % 8]) == n % 8;
    }
  }

  lemma SizeReads(b: seq<char>, h: nat, m: Member)
    requires MemberAt(b, h, m) && GoodMember(m)
    ensures Terminated(b, h + 124) && SizeAt(b, h) == |m.body|
  {
    var s := Octal(|m.body|, 11);
    EightTo11();
    OctalReads(|m.body|, 11);
    assert b[h + 135] == NUL;
    hide SizeAt, Octal, Segments, Value;
    assert forall k :: h + 124 <= k < h + 135 ==> b[k] == b[h + 124..h + 135][k - (h + 124)] == s[k - (h + 124)];
    OctalField(b, h, 11);
  }

  lemma SliceChars(b: seq<char>, h: nat, t: string)
    requires h + |t| <= |b| && b[h..h + |t|] == t
    ensures forall k :: h <= k < h + |t| ==> b[k] == t[k - h]
  {
    forall k | h <= k < h + |t| ensures b[k] == t[k - h] { assert b[h..h + |t|][k - h] == b[k]; }
  }

  /** A name written at s and ended by a NUL is the string there. */
  lemma NameIs(b: seq<char>, s: nat, name: string)
    requires s + |name| < |b| && NUL !in name && b[s + |name|] == NUL && forall k :: s <= k < s + |name| ==>
               b[k] == name[k - s]
    ensures CStr(b, s) == name
  {
    hide CStr;
    var n := |name|;
    assert forall k :: s <= k < s + n ==> b[k] != NUL by { assert forall k :: 0 <= k < n ==> name[k] in name; }
    CStrIs(b, s, n);
    assert b[s..s + n] == name;
  }

  lemma NameReads(b: seq<char>, h: nat, m: Member)
    requires MemberAt(b, h, m) && GoodMember(m)
    ensures h + 2 <= |b| && NameAt(b, h) == m.name && b[h] != NUL
    ensures exists k :: h <= k < h + 100 && b[k] == NUL
  {
    hide Segments, Octal, CStr;
    var t := FieldName(m);
    SliceChars(b, h, t);
    assert b[h] == t[0] && (|t| > 1 ==> b[h + 1] == t[1]);
    assert h <= h + |t| < h + 100 && b[h + |t|] == NUL;
    if m.dot {
      assert forall k :: h + 2 <= k < h + |t| ==> b[k] == t[k - h] == m.name[k - (h + 2)];
      NameIs(b, h + 2, m.name);
      assert t[0] == '.' && t[1] == '/';
    } else {
      NameIs(b, h, m.name);
      assert m.name[0] in m.name;
      assert |t| == 1 ==> b[h + 1] == NUL;
    }
  }

  /** A member's header is sound and reads back as the member. */
  lemma MemberReads(b: seq<char>, h: nat, m: Member)
    requires MemberAt(b, h, m) && GoodMember(m)
    ensures h + 512 <= |b| && HeaderOk(b, h) && !Stops(b, h) && SizeAt(b, h) == |m.body|
    ensures Skipped(b, h) <==> IsRoot(m)
    ensures EntryAt(b, h) == Entry(Segments(m.name, "/"), m.typeflag == '5', |m.body|, h + 512)
    ensures Stride(SizeAt(b, h)) == 512 + Padded(|m.body|)
  {
    hide Segments, Octal, SizeAt, NameAt, Stride, Padded, MemberAt, GoodMember, Terminated;
    SizeReads(b, h, m);
    NameReads(b, h, m);
    ModeAndType(b, h, m);
    NamesSomething(m);
    StridePadded(|m.body|);
  }

  lemma ModeAndType(b: seq<char>, h: nat, m: Member)
    requires MemberAt(b, h, m)
    ensures h + 512 <= |b| && Terminated(b, h + 100) && b[h + 156] == m.typeflag
  {
    hide Octal;
    assert b[h + 135] == NUL;
  }

  lemma NamesSomething(m: Member)
    requires GoodMember(m)
    ensures |m.body| + 1023 < 0x1_0000_0000 && (IsRoot(m) || Segments(m.name, "/") != [])
  {
    hide Segments;
  }

  lemma StridePadded(n: nat)
    requires n + 1023 < 0x1_0000_0000
    ensures Stride(n) == 512 + Padded(n)
  {
    StrideExactly(n);
  }

  /** Every archive reads back as exactly its members, in order: their paths, kinds, sizes and places. */
  lemma {:induction false} ReadsBack(b: seq<char>, h: nat, ms: seq<Member>)
    requires Archive(b, h, ms)
    ensures Complete(b, h) && Entries(b, h) == Listed(ms, h)
    decreases |ms|
  {
    hide MemberAt, GoodMember, HeaderOk, SizeAt, Skipped, EntryAt, Stride, Segments, Padded;
    if ms != [] {
      MemberReads(b, h, ms[0]);
      var next := h + 512 + Padded(|ms[0].body|);
      ReadsBack(b, next, ms[1..]);
      OneHeader(b, h, next);
    }
  }

  lemma {:induction false} OneHeader(b: seq<char>, h: nat, next: nat)
    requires h + 512 <= |b| && HeaderOk(b, h) && !Stops(b, h) && next == h + Stride(SizeAt(b, h)) && Complete(b, next)
    ensures Complete(b, h)
    ensures Entries(b, h) == (if Skipped(b, h) then [] else [EntryAt(b, h)]) + Entries(b, next)
  {
    hide HeaderOk, SizeAt, Skipped, EntryAt, Stride;
    HeaderSize(b, h);
    StrideIs(SizeAt(b, h));
  }

  lemma HeaderSize(b: seq<char>, h: nat)
    requires HeaderOk(b, h)
    ensures h + 512 <= |b| && SizeAt(b, h) + 1023 < 0x1_0000_0000
  {
    hide SizeAt, Segments;
  }

  // ---------- writing an archive ----------

  function HeaderChar(m: Member, o: nat): char {
    var t := FieldName(m);
    if o < |t| && o < 100 then t[o]
    else if 124 <= o < 135 then Octal(|m.body|, 11)[o - 124]
    else if o == 156 then m.typeflag
    else NUL
  }

  function Nuls(n: nat): (s: seq<char>)
    ensures |s| == n && forall i :: 0 <= i < n ==> s[i] == NUL
  {
    seq(n, i => NUL)
  }

  function Header(m: Member): (s: seq<char>)
    ensures |s| == 512 && forall o :: 0 <= o < 512 ==> s[o] == HeaderChar(m, o)
  {
    seq(512, o requires 0 <= o < 512 => HeaderChar(m, o))
  }

  function MemberBytes(m: Member): seq<char> {
    Header(m) + m.body + Nuls(Padded(|m.body|) - |m.body|)
  }

  /** The members one after another and two blocks of NULs behind them. */
  function Written(ms: seq<Member>): seq<char> {
    if ms == [] then Nuls(1024) else MemberBytes(ms[0]) + Written(ms[1..])
  }

  lemma HeaderCharAt(pre: seq<char>, m: Member, post: seq<char>, o: nat)
    requires o < 512
    ensures var b := pre + MemberBytes(m) + post; |pre| + o < |b| && b[|pre| + o] == HeaderChar(m, o)
  {
    hide HeaderChar, Padded;
    assert MemberBytes(m)[o] == Header(m)[o];
  }

  lemma MemberWritten(pre: seq<char>, m: Member, post: seq<char>)
    requires GoodMember(m)
    ensures MemberAt(pre + MemberBytes(m) + post, |pre|, m)
  {
    hide Segments, Octal, Padded, GoodMember, MemberBytes;
    GoodName(m);
    var b, h, t := pre + MemberBytes(m) + post, |pre|, FieldName(m);
    var s := Octal(|m.body|, 11);
    BodyAt(pre, m, post);
    forall o | 0 <= o < 512 ensures h + o < |b| && b[h + o] == HeaderChar(m, o) { HeaderCharAt(pre, m, post, o); }
    forall k | 0 <= k < |t| ensures b[h..h + |t|][k] == t[k] { assert b[h + k] == HeaderChar(m, k); }
    forall k | 0 <= k < 11 ensures b[h + 124..h + 135][k] == s[k] { assert b[h + (124 + k)] == HeaderChar(m, 124 + k); }
    assert b[h + |t|] == HeaderChar(m, |t|) && b[h + 135] == HeaderChar(m, 135) && b[h + 156] == HeaderChar(m, 156);
  }

  lemma BodyAt(pre: seq<char>, m: Member, post: seq<char>)
    ensures var b, h := pre + MemberBytes(m) + post, |pre|;
            h + 512 + |m.body| <= |b| && b[h + 512..h + 512 + |m.body|] == m.body
  {
    hide HeaderChar, Padded;
    var b, h := pre + MemberBytes(m) + post, |pre|;
    assert b == (pre + Header(m)) + m.body + (Nuls(Padded(|m.body|) - |m.body|) + post);
  }

  lemma GoodName(m: Member)
    requires GoodMember(m)
    ensures |FieldName(m)| < 100
  {
  }

  /** What is written is an archive of those members. */
  lemma {:induction false} WrittenIsArchive(pre: seq<char>, ms: seq<Member>)
    requires forall i :: 0 <= i < |ms| ==> GoodMember(ms[i])
    ensures Archive(pre + Written(ms), |pre|, ms)
    decreases |ms|
  {
    hide GoodMember, MemberAt, Segments, HeaderChar;
    if ms != [] {
      var m, rest := ms[0], Written(ms[1..]);
      MemberWritten(pre, m, rest);
      WrittenIsArchive(pre + MemberBytes(m), ms[1..]);
      assert pre + Written(ms) == pre + MemberBytes(m) + rest;
      assert |MemberBytes(m)| == 512 + Padded(|m.body|);
    }
  }

  /** Writing members and reading the archive gives the members. */
  lemma RoundTrip(ms: seq<Member>)
    requires forall i :: 0 <= i < |ms| ==> GoodMember(ms[i])
    ensures Complete(Written(ms), 0) && Entries(Written(ms), 0) == Listed(ms, 0)
  {
    hide GoodMember, Archive, Written;
    WrittenIsArchive([], ms);
    assert [] + Written(ms) == Written(ms);
    ReadsBack(Written(ms), 0, ms);
  }

  // ---------- after the parse ----------

  /** Where member i's header is. */
  function HeaderOf(ms: seq<Member>, h: nat, i: nat): nat
    requires i < |ms|
    decreases |ms|
  {
    if i == 0 then h else HeaderOf(ms[1..], h + 512 + Padded(|ms[0].body|), i - 1)
  }

  /** How many entries the first i members stand for. */
  function EntriesBefore(ms: seq<Member>, i: nat): nat
    requires i <= |ms|
    decreases |ms|
  {
    if i == 0 then 0 else (if IsRoot(ms[0]) then 0 else 1) + EntriesBefore(ms[1..], i - 1)
  }

  lemma {:induction false} MemberThere(b: seq<char>, h: nat, ms: seq<Member>, i: nat)
    requires Archive(b, h, ms) && i < |ms|
    ensures MemberAt(b, HeaderOf(ms, h, i), ms[i])
    decreases |ms|
  {
    hide MemberAt, GoodMember, Padded;
    if i > 0 { MemberThere(b, h + 512 + Padded(|ms[0].body|), ms[1..], i - 1); }
  }

  lemma {:induction false} ListedStep(ms: seq<Member>, h: nat, x: nat)
    requires ms != []
    ensures var rest, skip := Listed(ms[1..], h + 512 + Padded(|ms[0].body|)), if IsRoot(ms[0]) then 0 else 1;
            && |Listed(ms, h)| == skip + |rest|
            && (skip <= x < skip + |rest| ==> Listed(ms, h)[x] == rest[x - skip])
  {
    hide Segments, Padded, IsRoot, Listed;
    ListedIs(ms, h);
  }

  lemma {:induction false} ListedIs(ms: seq<Member>, h: nat)
    requires ms != []
    ensures Listed(ms, h) == OwnEntry(ms[0], h) + Listed(ms[1..], h + 512 + Padded(|ms[0].body|))
  {
    hide OwnEntry, Padded;
  }

  lemma {:induction false} MemberListed(ms: seq<Member>, h: nat, i: nat)
    requires i < |ms| && !IsRoot(ms[i])
    ensures EntriesBefore(ms, i) < |Listed(ms, h)|
    ensures Listed(ms, h)[EntriesBefore(ms, i)] ==
            Entry(Segments(ms[i].name, "/"), ms[i].typeflag == '5', |ms[i].body|, HeaderOf(ms, h, i) + 512)
    decreases |ms|
  {
    hide Segments, Padded, IsRoot;
    if i > 0 {
      hide Listed;
      MemberListed(ms[1..], h + 512 + Padded(|ms[0].body|), i - 1);
      ListedStep(ms, h, EntriesBefore(ms, i));
    }
  }

  lemma {:induction false} ListedEarlier(ms: seq<Member>, h: nat, i: nat, x: nat)
    requires i < |ms| && x < EntriesBefore(ms, i)
    ensures x < |Listed(ms, h)| && Earlier(ms, i, Listed(ms, h)[x].path)
    decreases |ms|
  {
    hide Segments, Padded, IsRoot, Earlier;
    var skip := if IsRoot(ms[0]) then 0 else 1;
    if x < skip {
      EarlierFirst(ms, i);
    } else {
      hide Listed;
      var next := h + 512 + Padded(|ms[0].body|);
      ListedEarlier(ms[1..], next, i - 1, x - skip);
      ListedStep(ms, h, x);
      EarlierRest(ms, i, Listed(ms[1..], next)[x - skip].path);
    }
  }

  /** An earlier member has this path. */
  ghost predicate Earlier(ms: seq<Member>, i: nat, path: Path)
    requires i <= |ms|
  {
    exists k :: 0 <= k < i && !IsRoot(ms[k]) && Segments(ms[k].name, "/") == path
  }

  lemma EarlierFirst(ms: seq<Member>, i: nat)
    requires 0 < i <= |ms| && !IsRoot(ms[0])
    ensures Earlier(ms, i, Segments(ms[0].name, "/"))
  {
  }

  lemma EarlierRest(ms: seq<Member>, i: nat, path: Path)
    requires 0 < i <= |ms| && Earlier(ms[1..], i - 1, path)
    ensures Earlier(ms, i, path)
  {
    hide Segments;
    var k :| 0 <= k < i - 1 && !IsRoot(ms[1..][k]) && Segments(ms[1..][k].name, "/") == path;
    assert ms[1..][k] == ms[k + 1];
  }

  /** After a successful parse of an archive that lists directories before their contents, every member of type 5
      is found as a directory, and every other member that is the first with its path as a file with its
      length, at bytes of the archive that are still its contents. */
  lemma MembersFound(nodes: Nodes, kids: Kids, root: nat, b: seq<char>, c: seq<char>, ms: seq<Member>, i: nat)
    requires Archive(b, 0, ms) && Complete(b, 0) && WellOrdered(Entries(b, 0)) && i < |ms| && !IsRoot(ms[i])
    requires Represents(nodes, kids, root, AddAll(map[[] := Dir], Entries(b, 0))) && OnlyNames(b, c, Offsets(b, 0))
    ensures var n := Walk(nodes, kids, root, Segments(ms[i].name, "/"));
            && n != 0 && n in nodes && |c| == |b|
            && (ms[i].typeflag == '5' ==> nodes[n].isDir)
            && (ms[i].typeflag != '5' && !Earlier(ms, i, Segments(ms[i].name, "/")) ==>
                  && !nodes[n].isDir && nodes[n].size == |ms[i].body| && nodes[n].data + nodes[n].size <= |c|
                  && c[nodes[n].data..nodes[n].data + nodes[n].size] == ms[i].body)
  {
    hide Archive, Complete, WellOrdered, Represents, OnlyNames, Entries, Offsets, Walk, Segments, AddAll, MemberAt,
      Octal,
      Earlier, Listed, EntriesBefore;
    ReadsBack(b, 0, ms);
    var e := EntriesBefore(ms, i);
    MemberThere(b, 0, ms, i);
    MemberListed(ms, 0, i);
    EveryMemberFound(nodes, kids, root, b, e);
    SameLength(b, c, Offsets(b, 0));
    if ms[i].typeflag != '5' && !Earlier(ms, i, Segments(ms[i].name, "/")) {
      forall x | 0 <= x < e ensures Earlier(ms, i, Listed(ms, 0)[x].path) { ListedEarlier(ms, 0, i, x); }
      assert FirstListing(Entries(b, 0), e);
      BodyKept(b, c, HeaderOf(ms, 0, i), ms[i], e);
    }
  }

  lemma SameLength(b: seq<char>, c: seq<char>, heads: seq<nat>)
    requires OnlyNames(b, c, heads)
    ensures |c| == |b|
  {
  }

  lemma BodyKept(b: seq<char>, c: seq<char>, h: nat, m: Member, e: nat)
    requires Complete(b, 0) && OnlyNames(b, c, Offsets(b, 0)) && |c| == |b| && MemberAt(b, h, m) && e < |Entries(b, 0)|
    requires Entries(b, 0)[e].data == h + 512 && Entries(b, 0)[e].size == |m.body|
    ensures h + 512 + |m.body| <= |c| && c[h + 512..h + 512 + |m.body|] == m.body
  {
    hide Complete, OnlyNames, Entries, Offsets, Octal;
    forall x | h + 512 <= x < h + 512 + |m.body| ensures c[x] == b[x] { MemberIntact(b, c, e, x); }
    assert c[h + 512..h + 512 + |m.body|] == b[h + 512..h + 512 + |m.body|];
  }
}
