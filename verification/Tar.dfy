/** kernel/src/fs/tar.c: the ramdisk reader, filling its file table in place. */
module Tar {
  import opened Machine
  import opened Text
  import opened Str
  import opened TarFormat
  import opened Ustar

  /** tar_get_size: eleven octal characters, from the last one back, in 32-bit
      arithmetic. */
  method GetSize(field: seq<Byte>) returns (size: Word)
    requires |field| >= DIGITS
    ensures size == Wrap(OctalValue(field[..DIGITS]))
  {
    size := 0;
    var count: Word := 1;
    var j: nat := DIGITS;
    ghost var goal := Wrap(OctalValue(field[..DIGITS]));
    while j > 0
      invariant j <= DIGITS && Summed(field, j, size, goal) && count == Wrap(Power8(DIGITS - j))
    {
      CountStep(DIGITS - j, count);
      SizeStep(field, j, size, goal);
      size := Wrap(size + (SignedChar(field[j - 1]) - '0' as int) * count);
      j := j - 1;
      count := Wrap(count * 8);
    }
  }

  /** What is still to be added for the first j characters completes the sum. */
  ghost predicate Summed(field: seq<Byte>, j: nat, size: Word, goal: Word) {
    j <= DIGITS <= |field| && Wrap(size + OctalValue(field[..j]) * Power8(DIGITS - j)) == goal
  }

  lemma {:induction false} PowerBelow(n: nat)
    requires n <= 10
    ensures Power8(n) < TWO32
  {
    ElevenDigits();
    if n < 10 { PowerGrows(n, 10); }
  }

  lemma CountStep(m: nat, count: Word)
    requires m <= 10 && count == Wrap(Power8(m))
    ensures count == Power8(m) && Wrap(count * 8) == Wrap(Power8(m + 1))
  {
    PowerBelow(m);
  }

  lemma {:induction false} PowerGrows(m: nat, n: nat)
    requires m <= n
    ensures Power8(m) <= Power8(n)
    decreases n - m
  {
    if m < n { PowerGrows(m + 1, n); }
  }

  /** Moving the j-th character into the sum. */
  lemma {:induction false} SizeStep(field: seq<Byte>, j: nat, size: Word, goal: Word)
    requires j > 0 && Summed(field, j, size, goal)
    ensures Summed(field, j - 1,
                   Wrap(size + (SignedChar(field[j - 1]) - '0' as int) * Power8(DIGITS - j)), goal)
  {
    var digit, p := SignedChar(field[j - 1]) - '0' as int, Power8(DIGITS - j);
    var high := OctalValue(field[..j - 1]);
    assert field[..j][..j - 1] == field[..j - 1];
    assert OctalValue(field[..j]) == high * 8 + digit;
    Distribute(high, digit, p);
    WrapTwice(size + digit * p, high * (8 * p));
  }

  lemma Distribute(high: int, digit: int, p: int)
    ensures (high * 8 + digit) * p == high * (8 * p) + digit * p
  {}

  lemma FilesStep(mem: seq<Byte>, a: Word, n: nat, done: seq<TarFile>)
    requires Chain(mem, a, n) && mem[a] != 0
    ensures n > 0 && a + SIZE_AT + DIGITS <= |mem|
    ensures var next := NextHeader(a, SizeAt(mem, a));
            Chain(mem, next, n - 1)
            && done + Files(mem, a, n) == done + [FileAt(mem, a)] + Files(mem, next, n - 1)
  {}

  class Reader {
    const mem: seq<Byte>
    const headers: array<Word>
    const files: array<TarFile>
    var fileCount: nat

    constructor (memory: seq<Byte>)
      ensures mem == memory && fileCount == 0 && headers.Length == files.Length == 32
      ensures fresh(headers) && fresh(files)
    {
      mem := memory;
      headers := new Word[MAX_FILES](_ => 0);
      files := new TarFile[MAX_FILES](_ => TarFile([], 0, 0));
      fileCount := 0;
    }

    ghost predicate Valid()
      reads this
    {
      headers.Length == 32 && files.Length == 32 && fileCount <= 32
    }

    /** tar_parse, on memory where the walk meets at most 32 headers. */
    method Parse(address: Word, ghost n: nat) returns (count: nat)
      requires Valid() && Chain(mem, address, n) && n <= 32
      modifies this`fileCount, headers, files
      ensures Valid() && count == fileCount == n
      ensures files[..n] == Files(mem, address, n)
    {
      var a: Word := address;
      var i: nat := 0;
      while mem[a] != 0
        invariant Parsing(address, n, i, a)
        decreases n - i
      {
        a := ParseNext(address, n, i, a);
        i := i + 1;
      }
      fileCount := i;
      return i;
    }

    /** tar_parse after i headers, the next one being at `a`. */
    ghost predicate Parsing(address: Word, n: nat, i: nat, a: Word)
      reads this, files
    {
      && Valid() && i <= n <= MAX_FILES && Chain(mem, address, n) && Chain(mem, a, n - i)
      && files[..i] + Files(mem, a, n - i) == Files(mem, address, n)
    }

    /** One turn of tar_parse's loop. */
    method ParseNext(ghost address: Word, ghost n: nat, i: nat, a: Word) returns (next: Word)
      requires Parsing(address, n, i, a) && mem[a] != 0
      modifies headers, files
      ensures i < n && Parsing(address, n, i + 1, next)
    {
      ghost var done := files[..i];
      FilesStep(mem, a, n - i, done);
      StoreFile(a, i);
      assert files[..i + 1] == done + [FileAt(mem, a)];
      next := Advance(a, files[i].size);
    }

    /** What that turn writes: the i-th slots, for the header at `a`. */
    method StoreFile(a: Word, i: nat)
      requires Valid() && i < MAX_FILES && a + SIZE_AT + DIGITS <= |mem|
      modifies headers, files
      ensures files[i] == FileAt(mem, a)
      ensures forall k :: 0 <= k < MAX_FILES && k != i ==> files[k] == old(files[k])
    {
      ghost var field := mem[a + SIZE_AT..a + SIZE_AT + DIGITS];
      var size := GetSize(mem[a + SIZE_AT..a + SIZE_AT + DIGITS]);
      assert field[..DIGITS] == field;
      headers[i] := a;
      var name := new Byte[NAME];
      StrnCpy(name, mem[a..a + NAME], NAME);
      assert name[..] == name[..NAME];
      files[i] := TarFile(name[..], size, Wrap(a + RECORD));
    }

    /** tar_open: the position of the first match, or none. */
    method Open(filename: seq<Byte>) returns (r: Option<nat>)
      requires Valid() && Readable(filename, NAME)
      requires forall k :: 0 <= k < fileCount ==> |files[k].filename| == NAME
      ensures var i := FirstNamed(files[..fileCount], filename);
              r == if i < fileCount then Some(i) else None
    {
      ghost var fs := files[..fileCount];
      for i := 0 to fileCount
        invariant i <= FirstNamed(fs, filename)
      {
        ReadableCompare(files[i].filename, filename, NAME);
        CompareOrdersKeys(files[i].filename, filename, NAME);
        var c := StrnCmp(files[i].filename, filename, NAME);
        if c == 0 {
          assert fs[i] == files[i];
          return Some(i);
        }
        assert FirstNamed(fs, filename) != i by {
          assert !SameName(fs[i].filename, filename);
        }
      }
      return None;
    }

    /** tar_read: at most `size` bytes of the file's data, copied to the front of the
        buffer. */
    method Read(file: TarFile, buffer: array<Byte>, size: nat)
      requires var n := if size > file.size then file.size else size;
               n < 0x8000_0000 && n <= buffer.Length && file.start + n <= |mem|
      modifies buffer
      ensures var n := if size > file.size then file.size else size;
              buffer[..n] == mem[file.start..file.start + n] && buffer[n..] == old(buffer[n..])
    {
      var n := size;
      if n > file.size {
        n := file.size;
      }
      MemCpy(buffer, mem[file.start..file.start + n], n);
    }

    /** What krnl_main does with the ramdisk: parse it, open a file by name, read the
        front of it.  On an archive laid out by the builder it finds the first entry of
        that name, and reads its first bytes. */
    method Load(ghost es: seq<Entry>, address: Word, filename: seq<Byte>, buffer: array<Byte>, size: nat)
      returns (r: Option<nat>)
      requires Valid() && |es| <= 32 && Packable(es)
      requires ArchiveAt(mem, address, es) && address + Extent(es) < TWO32
      requires Readable(filename, NAME) && size <= buffer.Length
      modifies this`fileCount, headers, files, buffer
      ensures var i := FirstEntry(es, filename);
              if i == |es| then r == None
              else
                var n := if size > |es[i].content| then |es[i].content| else size;
                r == Some(n) && buffer[..n] == es[i].content[..n] && buffer[n..] == old(buffer[n..])
    {
      var found := ParseAndOpen(es, address, filename);
      if found.None? {
        return None;
      }
      var file := files[found.value];
      ContentInPlace(mem, address, es, found.value);
      PackableAt(es, found.value);
      Read(file, buffer, size);
      var n := if size > file.size then file.size else size;
      Prefix(mem, file.start, es[found.value].content, n);
      return Some(n);
    }

    method ParseAndOpen(ghost es: seq<Entry>, address: Word, filename: seq<Byte>) returns (found: Option<nat>)
      requires Valid() && |es| <= 32 && Packable(es)
      requires ArchiveAt(mem, address, es) && address + Extent(es) < TWO32
      requires Readable(filename, NAME)
      modifies this`fileCount, headers, files
      ensures Valid()
      ensures var i := FirstEntry(es, filename);
              if i == |es| then found == None
              else found == Some(i) && |Expected(es, address)| == |es| && files[i] == Expected(es, address)[i]
    {
      ArchiveFiles(mem, address, es);
      OpenFindsEntry(mem, address, es, filename);
      AllNamed(mem, address, es);
      var count := Parse(address, |es|);
      ghost var fs := files[..count];
      assert fs == Expected(es, address);
      assert forall k :: 0 <= k < count ==> files[k] == fs[k];
      found := Open(filename);
    }
  }

  lemma AllNamed(mem: seq<Byte>, a: nat, es: seq<Entry>)
    requires Packable(es)
    requires ArchiveAt(mem, a, es) && a + Extent(es) < TWO32
    ensures var fs := Expected(es, a);
            |fs| == |es| && forall k :: 0 <= k < |fs| ==> |fs[k].filename| == NAME
  {
    ExpectedSize(es, a);
    forall k | 0 <= k < |es| ensures |Expected(es, a)[k].filename| == NAME {
      ContentInPlace(mem, a, es, k);
      PackableAt(es, k);
    }
  }

  /** The two steps tar_parse takes to the next header. */
  method Advance(address: Word, size: Word) returns (a: Word)
    ensures a == NextHeader(address, size)
  {
    a := Wrap(address + (size / RECORD + 1) * RECORD);
    if size % RECORD != 0 {
      a := Wrap(a + RECORD);
    }
  }
}
