/**
 What the reader of tar.c makes of an archive in memory: headers at 512-byte steps, the
 name and the octal size in them.  Against the builder of module Ustar it is proved to
 recover what was archived.
 */
module TarFormat {
  import opened Machine
  import opened Text
  import opened Ustar

  const NAME: nat := 100
  const SIZE_AT: nat := 124
  const RECORD: nat := 512
  const DIGITS: nat := 11
  const MAX_FILES: nat := 32

  datatype TarFile = TarFile(filename: seq<Byte>, size: Word, start: Word)

  // ------------------------------------------------------------- size fields

  /** A char of the size field, as the signed char it is. */
  function SignedChar(c: Byte): (v: int)
    ensures -128 <= v < 128 && (v - c) % 256 == 0
  {
    if c >= 128 then c - 256 else c
  }

  /** The octal number in a size field. */
  function OctalValue(s: seq<Byte>): int {
    if s == [] then 0 else OctalValue(s[..|s| - 1]) * 8 + (SignedChar(s[|s| - 1]) - '0' as int)
  }

  function Power8(n: nat): (p: nat)
    ensures p > 0
  {
    if n == 0 then 1 else 8 * Power8(n - 1)
  }

  /** Reading an octal field back gives the number it was made from. */
  lemma {:induction false} OctalRoundTrip(n: nat, width: nat)
    requires n < Power8(width)
    ensures OctalValue(Octal(n, width)) == n
  {
    if width > 0 {
      OctalRoundTrip(n / 8, width - 1);
      var s := Octal(n, width);
      assert s[..width - 1] == Octal(n / 8, width - 1);
    }
  }

  lemma ElevenDigits()
    ensures Power8(10) == 0x4000_0000 && Power8(DIGITS) == 2 * TWO32
  {
    assert Power8(5) == 0x8000;
    assert Power8(8) == 0x100_0000;
  }

  // --------------------------------------------------------- walking headers

  function SizeAt(mem: seq<Byte>, a: nat): Word
    requires a + SIZE_AT + DIGITS <= |mem|
  {
    Wrap(OctalValue(mem[a + SIZE_AT..a + SIZE_AT + DIGITS]))
  }

  /** Where the code looks for the header after the one at `a`. */
  function NextHeader(a: Word, size: Word): Word {
    var b := Wrap(a + (size / RECORD + 1) * RECORD);
    if size % RECORD != 0 then Wrap(b + RECORD) else b
  }

  /** From `a` the walk meets n headers, all in memory, and then an empty name. */
  predicate Chain(mem: seq<Byte>, a: Word, n: nat)
    decreases n
  {
    a < |mem| &&
    if n == 0 then mem[a] == 0
    else mem[a] != 0 && a + SIZE_AT + DIGITS <= |mem| && Chain(mem, NextHeader(a, SizeAt(mem, a)), n - 1)
  }

  function FileAt(mem: seq<Byte>, a: Word): TarFile
    requires a + SIZE_AT + DIGITS <= |mem|
  {
    TarFile(Field(mem[a..a + NAME], NAME), SizeAt(mem, a), Wrap(a + RECORD))
  }

  /** The files of the n headers from `a`. */
  function Files(mem: seq<Byte>, a: Word, n: nat): (fs: seq<TarFile>)
    requires Chain(mem, a, n)
    ensures |fs| == n
    decreases n
  {
    if n == 0 then [] else [FileAt(mem, a)] + Files(mem, NextHeader(a, SizeAt(mem, a)), n - 1)
  }

  /** Names agree on their first 100 bytes. */
  predicate SameName(a: seq<Byte>, b: seq<Byte>) {
    Key(a, NAME) == Key(b, NAME)
  }

  /** The first file whose name agrees with `q`. */
  function FirstNamed(fs: seq<TarFile>, q: seq<Byte>): (i: nat)
    ensures i <= |fs|
    ensures i < |fs| ==> SameName(fs[i].filename, q)
    ensures forall j :: 0 <= j < i ==> !SameName(fs[j].filename, q)
  {
    if fs == [] || SameName(fs[0].filename, q) then 0 else 1 + FirstNamed(fs[1..], q)
  }

  // ----------------------------------------------------------- built archives

  /** What the reader should report for an archive that starts at `a`. */
  function Expected(es: seq<Entry>, a: nat): seq<TarFile>
    requires a + Extent(es) < TWO32 && Packable(es)
  {
    if es == [] then []
    else [TarFile(NameField(es[0].name), |es[0].content|, a + RECORD)] + Expected(es[1..], a + Span(es[0]))
  }

  lemma NoWrap(x: nat)
    requires x < TWO32
    ensures Wrap(x) == x
  {}

  lemma NextHeaderStep(a: nat, n: nat)
    requires a + RECORD + n + Padding(n) < TWO32
    ensures NextHeader(a, n) == a + RECORD + n + Padding(n)
  {
    assert n == n / RECORD * RECORD + n % RECORD;
    NoWrap(a + (n / RECORD + 1) * RECORD);
    NoWrap(a + RECORD + n + Padding(n));
  }

  lemma {:induction false} OctalFits(n: nat)
    requires n < TWO32
    ensures Wrap(OctalValue(Octal(n, DIGITS))) == n
  {
    ElevenDigits();
    OctalRoundTrip(n, DIGITS);
    NoWrap(n);
  }

  lemma {:induction false} ReadsSize(mem: seq<Byte>, a: nat, n: nat)
    requires a + SIZE_AT + DIGITS <= |mem| && n < TWO32
    requires mem[a + SIZE_AT..a + SIZE_AT + DIGITS] == Octal(n, DIGITS)
    ensures SizeAt(mem, a) == n
  {
    OctalFits(n);
  }

  lemma NameIsField(e: Entry)
    requires WellFormed(e)
    ensures NameField(e.name) == Field(e.name, NAME)
  {
    assert Key(e.name, NAME) == e.name;
  }

  lemma ReadsFile(mem: seq<Byte>, a: nat, e: Entry)
    requires WellFormed(e) && EntryAt(mem, a, e) && a + RECORD < TWO32
    ensures FileAt(mem, a) == TarFile(NameField(e.name), SizeAt(mem, a), a + RECORD)
  {
    NameIsField(e);
    FieldOfField(e.name, NAME);
    NoWrap(a + RECORD);
  }

  /** One header of a built archive is read as its entry, and leads to the next. */
  lemma ReadsEntry(mem: seq<Byte>, a: nat, e: Entry)
    requires WellFormed(e) && EntryAt(mem, a, e) && a + Span(e) < TWO32
    ensures mem[a] != 0 && a + RECORD < TWO32
    ensures FileAt(mem, a) == TarFile(NameField(e.name), |e.content|, a + RECORD)
    ensures NextHeader(a, SizeAt(mem, a)) == a + Span(e)
  {
    ReadsSize(mem, a, |e.content|);
    ReadsFile(mem, a, e);
    NextHeaderStep(a, |e.content|);
  }

  lemma FieldOfField(s: seq<Byte>, n: nat)
    ensures Field(Field(s, n), n) == Field(s, n)
  {
    KeyOfField(s, n);
  }

  /** The walk from `a` reads the files `fs`, one header each. */
  ghost predicate Reads(mem: seq<Byte>, a: Word, fs: seq<TarFile>)
    decreases |fs|
  {
    && a < |mem|
    && if fs == [] then mem[a] == 0
       else
         && mem[a] != 0 && a + SIZE_AT + DIGITS <= |mem| && fs[0] == FileAt(mem, a)
         && Reads(mem, NextHeader(a, SizeAt(mem, a)), fs[1..])
  }

  lemma {:induction false} ReadsMeans(mem: seq<Byte>, a: Word, fs: seq<TarFile>)
    requires Reads(mem, a, fs)
    ensures Chain(mem, a, |fs|) && Files(mem, a, |fs|) == fs
    decreases |fs|
  {
    if fs != [] {
      var next := NextHeader(a, SizeAt(mem, a));
      ReadsMeans(mem, next, fs[1..]);
      ChainStep(mem, a, next, |fs| - 1);
    }
  }

  lemma {:induction false} ReadsArchive(mem: seq<Byte>, a: nat, es: seq<Entry>)
    requires Packable(es)
    requires ArchiveAt(mem, a, es) && a + Extent(es) < TWO32
    ensures Reads(mem, a, Expected(es, a))
    decreases |es|
  {
    if es == [] {
      ReadsNothing(mem, a);
    } else {
      var next := a + Span(es[0]);
      ExpectedStep(es, a);
      ArchiveTail(mem, a, es);
      ReadsArchive(mem, next, es[1..]);
      ReadsCons(mem, a, es, Expected(es[1..], next));
    }
  }

  lemma ReadsNothing(mem: seq<Byte>, a: Word)
    requires a < |mem| && mem[a] == 0
    ensures Reads(mem, a, Expected([], a))
  {}

  lemma ReadsCons(mem: seq<Byte>, a: nat, es: seq<Entry>, fs: seq<TarFile>)
    requires es != [] && Packable(es) && ArchiveAt(mem, a, es) && a + Extent(es) < TWO32
    requires Reads(mem, a + Span(es[0]), fs)
    ensures Reads(mem, a, [TarFile(NameField(es[0].name), |es[0].content|, a + RECORD)] + fs)
  {
    var file := TarFile(NameField(es[0].name), |es[0].content|, a + RECORD);
    assert a + RECORD <= |mem| && mem[a] != 0 && file == FileAt(mem, a)
           && NextHeader(a, SizeAt(mem, a)) == a + Span(es[0]) by {
      assert EntryAt(mem, a, es[0]);
      ReadsEntry(mem, a, es[0]);
    }
    ReadsFirst(mem, a, file, a + Span(es[0]), fs);
  }

  lemma ReadsFirst(mem: seq<Byte>, a: Word, file: TarFile, next: Word, fs: seq<TarFile>)
    requires a + SIZE_AT + DIGITS <= |mem| && mem[a] != 0 && file == FileAt(mem, a)
    requires next == NextHeader(a, SizeAt(mem, a)) && Reads(mem, next, fs)
    ensures Reads(mem, a, [file] + fs)
  {
    var all := [file] + fs;
    assert all[0] == file && all[1..] == fs;
  }

  lemma ChainStep(mem: seq<Byte>, a: Word, next: Word, n: nat)
    requires a + SIZE_AT + DIGITS <= |mem| && mem[a] != 0
    requires next == NextHeader(a, SizeAt(mem, a)) && Chain(mem, next, n)
    ensures Chain(mem, a, n + 1) && Files(mem, a, n + 1) == [FileAt(mem, a)] + Files(mem, next, n)
  {}

  lemma ArchiveFiles(mem: seq<Byte>, a: nat, es: seq<Entry>)
    requires Packable(es)
    requires ArchiveAt(mem, a, es) && a + Extent(es) < TWO32
    ensures Chain(mem, a, |es|) && Files(mem, a, |es|) == Expected(es, a)
  {
    ReadsArchive(mem, a, es);
    ReadsMeans(mem, a, Expected(es, a));
    ExpectedSize(es, a);
  }

  /** The reader undoes the builder: wherever memory holds a built archive followed by
      a zero byte, the walk meets one header for each entry, and recovers each name,
      size and data offset. */
  lemma ParseUndoesBuild(mem: seq<Byte>, a: nat, es: seq<Entry>, post: seq<Byte>)
    requires Packable(es)
    requires a <= |mem| && mem[a..] == Archive(es) + post && post != [] && post[0] == 0
    requires a + Extent(es) < TWO32
    ensures ArchiveAt(mem, a, es)
    ensures Chain(mem, a, |es|) && Files(mem, a, |es|) == Expected(es, a)
  {
    BuiltArchiveAt(mem, a, es, post);
    ArchiveFiles(mem, a, es);
  }

  /** The data of the k-th entry lies where the reader says it does. */
  lemma {:induction false} ContentInPlace(mem: seq<Byte>, a: nat, es: seq<Entry>, k: nat)
    requires Packable(es)
    requires ArchiveAt(mem, a, es) && a + Extent(es) < TWO32 && k < |es|
    ensures var fs := Expected(es, a);
            && |fs| == |es| && fs[k].size == |es[k].content| && fs[k].filename == NameField(es[k].name)
            && fs[k].start + fs[k].size <= |mem|
            && mem[fs[k].start..fs[k].start + fs[k].size] == es[k].content
    decreases |es|
  {
    ExpectedStep(es, a);
    ExpectedSize(es, a);
    if k == 0 {
      FirstContent(mem, a, es);
    } else {
      var tail, next := es[1..], a + Span(es[0]);
      ArchiveTail(mem, a, es);
      ContentInPlace(mem, next, tail, k - 1);
      ExpectedShift(es, a, k);
    }
  }

  lemma ExpectedShift(es: seq<Entry>, a: nat, k: nat)
    requires a + Extent(es) < TWO32 && Packable(es) && 0 < k < |es|
    requires |Expected(es, a)| == |es|
    ensures es[1..][k - 1] == es[k]
    ensures var rest := Expected(es[1..], a + Span(es[0]));
            |rest| == |es| - 1 && Expected(es, a)[k] == rest[k - 1]
  {
    ExpectedStep(es, a);
  }

  lemma FirstContent(mem: seq<Byte>, a: nat, es: seq<Entry>)
    requires es != [] && ArchiveAt(mem, a, es)
    ensures var e := es[0];
            a + RECORD + |e.content| <= |mem| && mem[a + RECORD..a + RECORD + |e.content|] == e.content
  {
    assert EntryAt(mem, a, es[0]);
  }

  lemma ExpectedStep(es: seq<Entry>, a: nat)
    requires es != [] && a + Extent(es) < TWO32 && Packable(es)
    ensures WellFormed(es[0]) && Packable(es[1..]) && a + RECORD < TWO32
    ensures a + Span(es[0]) + Extent(es[1..]) == a + Extent(es)
    ensures Expected(es, a)
            == [TarFile(NameField(es[0].name), |es[0].content|, a + RECORD)] + Expected(es[1..], a + Span(es[0]))
  {
  }

  lemma Prefix(mem: seq<Byte>, start: nat, content: seq<Byte>, n: nat)
    requires start + |content| <= |mem| && mem[start..start + |content|] == content && n <= |content|
    ensures mem[start..start + n] == content[..n]
  {
    assert mem[start..start + n] == mem[start..start + |content|][..n];
  }

  lemma {:induction false} ExpectedSize(es: seq<Entry>, a: nat)
    requires a + Extent(es) < TWO32 && Packable(es)
    ensures |Expected(es, a)| == |es|
    decreases |es|
  {
    if es != [] {
      ExpectedSize(es[1..], a + Span(es[0]));
    }
  }

  /** The first entry whose name is the first 100 bytes of `q`. */
  function FirstEntry(es: seq<Entry>, q: seq<Byte>): (i: nat)
    ensures i <= |es|
    ensures i < |es| ==> es[i].name == Key(q, NAME)
    ensures forall j :: 0 <= j < i ==> es[j].name != Key(q, NAME)
  {
    if es == [] || es[0].name == Key(q, NAME) then 0 else 1 + FirstEntry(es[1..], q)
  }

  lemma NameIsKey(e: Entry)
    requires WellFormed(e)
    ensures Key(NameField(e.name), NAME) == e.name
  {
    NameIsField(e);
    KeyOfField(e.name, NAME);
    assert Key(e.name, NAME) == e.name;
  }

  /** tar_open's match among the files is the first entry of that name. */
  lemma OpenFindsEntry(mem: seq<Byte>, a: nat, es: seq<Entry>, q: seq<Byte>)
    requires Packable(es)
    requires ArchiveAt(mem, a, es) && a + Extent(es) < TWO32
    ensures FirstNamed(Expected(es, a), q) == FirstEntry(es, q)
  {
    var fs := Expected(es, a);
    ExpectedSize(es, a);
    forall k | 0 <= k < |es| ensures Key(fs[k].filename, NAME) == es[k].name {
      ContentInPlace(mem, a, es, k);
      PackableAt(es, k);
      NameIsKey(es[k]);
    }
    var i, j := FirstNamed(fs, q), FirstEntry(es, q);
    assert i < |es| ==> es[i].name == Key(q, NAME);
    assert j < |es| ==> SameName(fs[j].filename, q);
  }
}
