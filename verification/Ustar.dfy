/**
 A builder of archives in the ustar interchange format of IEEE Std 1003.1 (the pax
 utility, "ustar Interchange Format"), stated on its own: the fields of a header with
 their widths, one after the other, then the data in 512-byte records.
 */
module Ustar {
  import opened Machine

  /** A file to archive.  The reader looks at the name, the size and the data; what the
      other fields hold is arbitrary, `rest` being all that follows the type flag. */
  datatype Entry = Entry(name: seq<Byte>, mode: seq<Byte>, uid: seq<Byte>, gid: seq<Byte>, sizeEnd: Byte,
                         mtime: seq<Byte>, chksum: seq<Byte>, typeflag: Byte, rest: seq<Byte>,
                         content: seq<Byte>)

  predicate WellFormed(e: Entry) {
    && 0 < |e.name| <= 100 && (forall i :: 0 <= i < |e.name| ==> e.name[i] != 0)
    && |e.mode| == 8 && |e.uid| == 8 && |e.gid| == 8
    && |e.mtime| == 12 && |e.chksum| == 8 && |e.rest| == 355
    && |e.content| < 0x8000_0000
  }

  /** Every entry is well formed. */
  predicate Packable(es: seq<Entry>) {
    es == [] || (WellFormed(es[0]) && Packable(es[1..]))
  }

  lemma {:induction false} PackableAt(es: seq<Entry>, k: nat)
    requires Packable(es) && k < |es|
    ensures WellFormed(es[k])
  {
    if k > 0 {
      PackableAt(es[1..], k - 1);
    }
  }

  /** n in exactly `width` octal digits. */
  function Octal(n: nat, width: nat): (s: seq<Byte>)
    ensures |s| == width
  {
    if width == 0 then [] else Octal(n / 8, width - 1) + [48 + n % 8]
  }

  /** The 100 bytes of the name field. */
  function NameField(name: seq<Byte>): (s: seq<Byte>)
    ensures |name| <= 100 ==> |s| == 100 && s[..|name|] == name
  {
    if |name| <= 100 then name + seq(100 - |name|, _ => 0) else name
  }

  /** The 12 bytes of the size field: eleven octal digits and whatever ends them. */
  function SizeField(e: Entry): (s: seq<Byte>)
    ensures |s| == 12
  {
    Octal(|e.content|, 11) + [e.sizeEnd]
  }

  /** name, mode, uid and gid */
  function Front(e: Entry): (s: seq<Byte>)
    ensures WellFormed(e) ==> |s| == 124
  {
    NameField(e.name) + e.mode + e.uid + e.gid
  }

  /** mtime, chksum, typeflag and the rest */
  function Back(e: Entry): (s: seq<Byte>)
    ensures WellFormed(e) ==> |s| == 376
  {
    e.mtime + e.chksum + [e.typeflag] + e.rest
  }

  function Header(e: Entry): (h: seq<Byte>)
    ensures WellFormed(e) ==> |h| == 512
  {
    Front(e) + SizeField(e) + Back(e)
  }

  /** What fills the last record of n bytes. */
  function Padding(n: nat): nat {
    if n % 512 == 0 then 0 else 512 - n % 512
  }

  function Packed(e: Entry): seq<Byte> {
    Header(e) + e.content + seq(Padding(|e.content|), _ => 0)
  }

  function Archive(es: seq<Entry>): seq<Byte> {
    if es == [] then [] else Packed(es[0]) + Archive(es[1..])
  }

  /** The bytes an entry takes, and those all entries take. */
  function Span(e: Entry): (n: nat)
    ensures n >= 512 + |e.content|
  {
    512 + |e.content| + Padding(|e.content|)
  }

  function Extent(es: seq<Entry>): nat {
    if es == [] then 0 else Span(es[0]) + Extent(es[1..])
  }

  lemma PackedSize(e: Entry)
    requires WellFormed(e)
    ensures |Packed(e)| == Span(e)
  {}

  // ---------------------------------------------------------------- in memory

  /** Entry `e` lies packed at `a`: its name, size digits and content are in place. */
  ghost predicate EntryAt(mem: seq<Byte>, a: nat, e: Entry) {
    && 0 < |e.name| && a + 512 + |e.content| <= |mem|
    && mem[a..a + 100] == NameField(e.name) && mem[a] == e.name[0]
    && mem[a + 124..a + 135] == Octal(|e.content|, 11)
    && mem[a + 512..a + 512 + |e.content|] == e.content
  }

  lemma FirstPart(a: seq<Byte>, b: seq<Byte>, c: seq<Byte>, d: seq<Byte>, e: seq<Byte>, f: seq<Byte>)
    ensures (a + b + c + d + e + f)[..|a|] == a
    ensures a != [] ==> (a + b + c + d + e + f)[0] == a[0]
  {}

  lemma MiddlePart(a: seq<Byte>, b: seq<Byte>, c: seq<Byte>, d: seq<Byte>)
    ensures (a + (b + c) + d)[|a|..|a| + |b|] == b
  {}

  lemma HeaderFields(e: Entry)
    requires WellFormed(e)
    ensures Header(e)[..100] == NameField(e.name) && Header(e)[0] == e.name[0]
    ensures Header(e)[124..135] == Octal(|e.content|, 11)
  {
    var name := NameField(e.name);
    assert name[0] == name[..|e.name|][0];
    FirstPart(name, e.mode, e.uid, e.gid, SizeField(e), Back(e));
    MiddlePart(Front(e), Octal(|e.content|, 11), [e.sizeEnd], Back(e));
  }

  /** What memory holds where a sequence lies. */
  lemma PartAt(mem: seq<Byte>, a: nat, s: seq<Byte>, tail: seq<Byte>, lo: nat, hi: nat)
    requires a <= |mem| && mem[a..] == s + tail && lo <= hi <= |s|
    ensures a + |s| <= |mem| && mem[a + lo..a + hi] == s[lo..hi]
    ensures lo < |s| ==> mem[a + lo] == s[lo]
  {
    assert |mem[a..]| == |s| + |tail|;
    forall i | 0 <= i < |s| ensures mem[a + i] == s[i] {
      assert mem[a + i] == mem[a..][i];
    }
    assert |mem[a + lo..a + hi]| == |s[lo..hi]|;
  }

  lemma PackedFields(mem: seq<Byte>, a: nat, e: Entry, tail: seq<Byte>)
    requires WellFormed(e) && a <= |mem| && mem[a..] == Packed(e) + tail
    ensures EntryAt(mem, a, e)
  {
    var h, n := Header(e), |e.content|;
    var rest := e.content + seq(Padding(n), _ => 0) + tail;
    assert mem[a..] == h + rest;
    HeaderFields(e);
    PartAt(mem, a, h, rest, 0, 100);
    PartAt(mem, a, h, rest, 124, 135);
    var p := h + e.content;
    assert mem[a..] == p + (seq(Padding(n), _ => 0) + tail);
    PartAt(mem, a, p, seq(Padding(n), _ => 0) + tail, 512, 512 + n);
    assert p[512..512 + n] == e.content;
  }

  /** The entries lie packed one after the other from `a`, then comes a zero byte.  The
      quantifier has EntryAt unfolded only where a proof names it. */
  ghost predicate ArchiveAt(mem: seq<Byte>, a: nat, es: seq<Entry>)
    decreases |es|
  {
    if es == [] then a < |mem| && mem[a] == 0
    else (forall e :: e == es[0] ==> EntryAt(mem, a, e)) && ArchiveAt(mem, a + Span(es[0]), es[1..])
  }

  /** A built archive in memory, and a zero byte behind it. */
  lemma {:induction false} BuiltArchiveAt(mem: seq<Byte>, a: nat, es: seq<Entry>, post: seq<Byte>)
    requires Packable(es)
    requires a <= |mem| && mem[a..] == Archive(es) + post && post != [] && post[0] == 0
    ensures ArchiveAt(mem, a, es)
    decreases |es|
  {
    if es == [] {
      assert mem[a] == mem[a..][0];
    } else {
      var tail := ArchiveSplit(mem, a, es, post);
      BuiltArchiveAt(mem, a + Span(es[0]), es[1..], post);
      ArchiveCons(mem, a, es, tail);
    }
  }

  lemma ArchiveSplit(mem: seq<Byte>, a: nat, es: seq<Entry>, post: seq<Byte>) returns (tail: seq<Byte>)
    requires es != [] && Packable(es) && a <= |mem| && mem[a..] == Archive(es) + post
    ensures Packable(es[1..]) && tail == Archive(es[1..]) + post
    ensures mem[a..] == Packed(es[0]) + tail
    ensures a + Span(es[0]) <= |mem| && mem[a + Span(es[0])..] == tail
  {
    tail := Archive(es[1..]) + post;
    PackedSize(es[0]);
    Regroup(Packed(es[0]), Archive(es[1..]), post);
    Beyond(mem, a, Packed(es[0]), Archive(es[1..]) + post);
  }

  lemma ArchiveCons(mem: seq<Byte>, a: nat, es: seq<Entry>, tail: seq<Byte>)
    requires es != [] && Packable(es) && a <= |mem| && mem[a..] == Packed(es[0]) + tail
    requires ArchiveAt(mem, a + Span(es[0]), es[1..])
    ensures ArchiveAt(mem, a, es)
  {
    PackedFields(mem, a, es[0], tail);
  }

  lemma ArchiveTail(mem: seq<Byte>, a: nat, es: seq<Entry>)
    requires es != [] && ArchiveAt(mem, a, es)
    ensures ArchiveAt(mem, a + Span(es[0]), es[1..])
  {}

  lemma Regroup(x: seq<Byte>, y: seq<Byte>, z: seq<Byte>)
    ensures x + y + z == x + (y + z)
  {}

  lemma Beyond(mem: seq<Byte>, a: nat, p: seq<Byte>, tail: seq<Byte>)
    requires a <= |mem| && mem[a..] == p + tail
    ensures a + |p| <= |mem| && mem[a + |p|..] == tail
  {
    assert mem[a + |p|..] == mem[a..][|p|..];
  }
}
