/** GridFS: files kept in a database as numbered chunks. One `storeFile` cuts up memory, the other
    reads a stream; `write` puts a file together again. */
module GridFs {
  import opened Bytes

  const SIZE_T: nat := 0x1_0000_0000

  /** A C stream: `feof` holds only once a read has come up short. */
  class File {
    const content: seq<byte>
    var pos: nat
    var eof: bool

    constructor (content: seq<byte>)
      ensures this.content == content && pos == 0 && !eof
    {
      this.content, pos, eof := content, 0, false;
    }

    ghost predicate Valid()
      reads this
    {
      pos <= |content| && (eof ==> pos == |content|)
    }

    method Fread(n: nat) returns (got: seq<byte>)
      requires Valid()
      modifies `pos, `eof
      ensures Valid() && pos == old(pos) + |got| && got == content[old(pos)..pos]
      ensures |got| == (if n <= |content| - old(pos) then n else |content| - old(pos))
      ensures eof == (old(eof) || |got| < n)
    {
      var end := if n <= |content| - pos then pos + n else |content|;
      got := content[pos..end];
      eof := eof || |got| < n;
      pos := end;
    }
  }

  // ----- what the two loops store -----

  /** Full chunks and what is left over, if anything. */
  function Cut(data: seq<byte>, size: nat): seq<seq<byte>>
    requires size > 0
  {
    if data == [] then [] else if |data| <= size then [data] else [data[..size]] + Cut(data[size..], size)
  }

  /** Full chunks and what is left over, even if that is nothing. */
  function CutStream(data: seq<byte>, size: nat): seq<seq<byte>>
    requires size > 0
  {
    if |data| < size then [data] else [data[..size]] + CutStream(data[size..], size)
  }

  function Joined(chunks: seq<seq<byte>>): seq<byte> {
    if chunks == [] then [] else chunks[0] + Joined(chunks[1..])
  }

  /** `getNumChunks`: the length divided by the chunk size, rounded up. */
  function NumChunks(length: nat, size: nat): nat
    requires size > 0
  {
    if length % size == 0 then length / size else length / size + 1
  }

  /** The chunks counted hold the length, and one less would not. */
  lemma NumChunksIs(length: nat, size: nat)
    requires size > 0
    ensures length <= NumChunks(length, size) * size < length + size
  {
    assert length == length / size * size + length % size;
    assert (length / size + 1) * size == length / size * size + size;
  }

  lemma NumChunksSteps(length: nat, size: nat)
    requires size > 0
    ensures length == 0 ==> NumChunks(length, size) == 0
    ensures 0 < length <= size ==> NumChunks(length, size) == 1
    ensures length > size ==> NumChunks(length, size) == 1 + NumChunks(length - size, size)
  {
    if length > size {
      assert length == size + (length - size);
      assert length % size == (length - size) % size && length / size == 1 + (length - size) / size by {
        DivModStep(length, size);
      }
    }
  }

  lemma DivModStep(a: nat, b: nat)
    requires b > 0 && a >= b
    ensures a / b == 1 + (a - b) / b && a % b == (a - b) % b
  {
    var q, r := (a - b) / b, (a - b) % b;
    assert a == (q + 1) * b + r;
    Unique(a, b, q + 1, r);
  }

  lemma Unique(a: nat, b: nat, q: nat, r: nat)
    requires b > 0 && a == q * b + r && r < b
    ensures a / b == q && a % b == r
  {
    SameQuotient(b, q, r, a / b, a % b);
  }

  lemma SameQuotient(b: nat, q: nat, r: nat, q': nat, r': nat)
    requires q * b + r == q' * b + r' && r < b && r' < b
    ensures q == q' && r == r'
  {
    var d := q - q';
    assert d * b == r' - r;
    TimesBound(d, b);
  }

  lemma TimesBound(d: int, b: int)
    requires b >= 0
    ensures d >= 1 ==> d * b >= b
    ensures d <= -1 ==> d * b <= -b
  {
  }

  /** The chunks make up the data, and there are as many as `getNumChunks` says. */
  lemma {:induction false} CutJoins(data: seq<byte>, size: nat)
    requires size > 0
    ensures Joined(Cut(data, size)) == data && |Cut(data, size)| == NumChunks(|data|, size)
    ensures forall i :: 0 <= i < |Cut(data, size)| ==> 0 < |Cut(data, size)[i]| <= size
    ensures forall i :: 0 <= i < |Cut(data, size)| - 1 ==> |Cut(data, size)[i]| == size
    decreases |data|
  {
    NumChunksSteps(|data|, size);
    if |data| > size {
      CutJoins(data[size..], size);
      assert data == data[..size] + data[size..];
    } else if data != [] {
      assert Cut(data, size)[1..] == [];
    }
  }

  /** The stream's chunks are the same, but for one empty chunk more when the length is an exact
      multiple of the chunk size. */
  lemma {:induction false} CutStreamIsCut(data: seq<byte>, size: nat)
    requires size > 0
    ensures CutStream(data, size) == Cut(data, size) + if |data| % size == 0 then [[]] else []
    decreases |data|
  {
    if |data| < size {
      Unique(|data|, size, 0, |data|);
    } else {
      DivModStep(|data|, size);
      CutStreamIsCut(data[size..], size);
      if |data| == size {
        assert data[size..] == [] && data[..size] == data;
      }
    }
  }

  // ----- storing -----

  datatype GridFile = GridFile(id: nat, length: nat, chunkSize: nat)

  type Chunks = map<(nat, int), seq<byte>>

  /** The store with `pieces` put in as the chunks of a file, from number `n` on. */
  function Put(chunks: Chunks, id: nat, n: nat, pieces: seq<seq<byte>>): Chunks
    decreases |pieces|
  {
    if pieces == [] then chunks else Put(chunks[(id, n) := pieces[0]], id, n + 1, pieces[1..])
  }

  lemma PutNext(chunks: Chunks, id: nat, n: nat, piece: seq<byte>, rest: seq<seq<byte>>)
    ensures Put(chunks, id, n, [piece] + rest) == Put(chunks[(id, n) := piece], id, n + 1, rest)
  {
    assert ([piece] + rest)[1..] == rest;
  }

  /** What is put in is there, and nothing else has changed. */
  lemma {:induction false} PutHolds(chunks: Chunks, id: nat, n: nat, pieces: seq<seq<byte>>, k: (nat, int))
    ensures var after := Put(chunks, id, n, pieces);
      if k.0 == id && n <= k.1 < n + |pieces| then k in after && after[k] == pieces[k.1 - n]
      else (k in after <==> k in chunks) && (k in chunks ==> after[k] == chunks[k])
    decreases |pieces|
  {
    if pieces != [] {
      PutHolds(chunks[(id, n) := pieces[0]], id, n + 1, pieces[1..], k);
    }
  }

  class GridFS {
    const chunkSize: nat
    var chunks: Chunks
    var files: seq<GridFile>

    constructor (chunkSize: nat)
      ensures this.chunkSize == chunkSize && chunks == map[] && files == []
    {
      this.chunkSize, chunks, files := chunkSize, map[], [];
    }

    method InsertFile(id: nat, length: nat) returns (file: GridFile)
      modifies `files
      ensures file == GridFile(id, length, chunkSize) && files == old(files) + [file]
    {
      file := GridFile(id, length, chunkSize);
      files := files + [file];
    }

    /** Stores a file from memory. */
    method StoreData(data: seq<byte>, id: nat) returns (file: GridFile)
      requires chunkSize > 0 && |data| < SIZE_T
      modifies `chunks, `files
      ensures chunks == Put(old(chunks), id, 0, Cut(data, chunkSize))
      ensures file == GridFile(id, |data|, chunkSize) && files == old(files) + [file]
    {
      ghost var goal := Put(chunks, id, 0, Cut(data, chunkSize));
      var chunkNumber, at := 0, 0;
      assert data[0..] == data;
      while at < |data|
        invariant 0 <= at <= |data| && files == old(files)
        invariant goal == Put(chunks, id, chunkNumber, Cut(data[at..], chunkSize))
        decreases |data| - at
      {
        var left := (|data| - at) % SIZE_T;
        var chunkLen := if chunkSize < left then chunkSize else left;
        var piece := data[at..at + chunkLen];
        CutStep(data, at, chunkLen, chunkSize);
        PutNext(chunks, id, chunkNumber, piece, Cut(data[at + chunkLen..], chunkSize));
        chunks := chunks[(id, chunkNumber) := piece];
        chunkNumber := chunkNumber + 1;
        at := at + chunkLen;
      }
      file := InsertFile(id, |data|);
    }

    /** Reads until the chunk is full or the stream ends. */
    method ReadChunk(fd: File) returns (buf: seq<byte>)
      requires chunkSize > 0 && fd.Valid() && !fd.eof
      modifies fd
      ensures fd.Valid() && fd.pos == old(fd.pos) + |buf| && buf == fd.content[old(fd.pos)..fd.pos]
      ensures |buf| <= chunkSize && fd.eof == (|buf| < chunkSize)
    {
      buf := [];
      ghost var start := fd.pos;
      while |buf| != chunkSize && !fd.eof
        invariant fd.Valid() && fd.pos == start + |buf| && |buf| <= chunkSize && buf == fd.content[start..fd.pos]
        invariant fd.eof ==> |buf| < chunkSize
        decreases !fd.eof, chunkSize - |buf|
      {
        var got := fd.Fread(chunkSize - |buf|);
        buf := buf + got;
      }
    }

    /** Stores a file from a stream. */
    method StoreStream(fd: File, id: nat) returns (file: GridFile)
      requires chunkSize > 0 && fd.Valid() && fd.pos == 0 && !fd.eof
      modifies fd, `chunks, `files
      ensures chunks == Put(old(chunks), id, 0, CutStream(fd.content, chunkSize))
      ensures file == GridFile(id, |fd.content|, chunkSize) && files == old(files) + [file]
    {
      ghost var goal := Put(chunks, id, 0, CutStream(fd.content, chunkSize));
      var chunkNumber, length := 0, 0;
      assert fd.content[0..] == fd.content;
      while !fd.eof
        invariant fd.Valid() && length == fd.pos && files == old(files)
        invariant goal == Put(chunks, id, chunkNumber, StillToCome(fd.content, fd.pos, fd.eof, chunkSize))
        decreases !fd.eof, |fd.content| - fd.pos
      {
        ghost var start := fd.pos;
        var buf := ReadChunk(fd);
        StreamStep(fd.content, start, |buf|, chunkSize);
        PutNext(chunks, id, chunkNumber, buf, StillToCome(fd.content, fd.pos, fd.eof, chunkSize));
        chunks := chunks[(id, chunkNumber) := buf];
        length := length + |buf|;
        chunkNumber := chunkNumber + 1;
      }
      file := InsertFile(id, length);
    }
  }

  /** The chunks a stream has yet to give. */
  function StillToCome(data: seq<byte>, pos: nat, eof: bool, size: nat): seq<seq<byte>>
    requires size > 0 && pos <= |data|
  {
    if eof then [] else CutStream(data[pos..], size)
  }

  lemma CutStep(data: seq<byte>, at: nat, len: nat, size: nat)
    requires size > 0 && at < |data| && len == if size < |data| - at then size else |data| - at
    ensures Cut(data[at..], size) == [data[at..at + len]] + Cut(data[at + len..], size)
  {
    var rest := data[at..];
    assert rest[len..] == data[at + len..];
    assert rest[..len] == data[at..at + len];
    if |rest| <= size {
      assert data[at + len..] == [];
      assert rest == data[at..at + len];
    }
  }

  lemma StreamStep(data: seq<byte>, at: nat, len: nat, size: nat)
    requires size > 0 && at + len <= |data| && len <= size && (len < size ==> at + len == |data|)
    ensures CutStream(data[at..], size) == [data[at..at + len]] + StillToCome(data, at + len, len < size, size)
  {
    var rest := data[at..];
    assert rest[len..] == data[at + len..];
    assert rest[..len] == data[at..at + len];
    if len < size {
      assert rest == data[at..at + len];
    }
  }

  // ----- reading back -----

  /** `getChunk`: throws if there is none. */
  function GetChunk(chunks: Chunks, file: GridFile, n: int): Result<seq<byte>> {
    if (file.id, n) in chunks then Ok(chunks[(file.id, n)]) else Threw(10014)
  }

  /** The chunks from `i` to `num`, together. */
  function ReadFrom(chunks: Chunks, file: GridFile, i: nat, num: nat): Result<seq<byte>>
    requires i <= num
    decreases num - i
  {
    if i == num then Ok([])
    else
      var chunk := GetChunk(chunks, file, i);
      if chunk.Threw? then Threw(chunk.code)
      else
        After(chunk.value, ReadFrom(chunks, file, i + 1, num))
  }

  function After(out: seq<byte>, rest: Result<seq<byte>>): Result<seq<byte>> {
    if rest.Threw? then rest else Ok(out + rest.value)
  }

  lemma AfterMore(out: seq<byte>, chunk: Result<seq<byte>>, rest: Result<seq<byte>>)
    requires chunk.Ok?
    ensures After(out, After(chunk.value, rest)) == After(out + chunk.value, rest)
  {
    if rest.Ok? {
      assert out + (chunk.value + rest.value) == out + chunk.value + rest.value;
    }
  }

  /** Writes a file out; on a missing chunk it throws, what came before it written already. */
  method Write(chunks: Chunks, file: GridFile) returns (out: seq<byte>, r: Result<nat>)
    requires file.chunkSize > 0
    ensures var all := ReadFrom(chunks, file, 0, NumChunks(file.length, file.chunkSize));
      if all.Ok? then out == all.value && r == Ok(file.length) else r == Threw(all.code)
  {
    var num := NumChunks(file.length, file.chunkSize);
    ghost var all := ReadFrom(chunks, file, 0, num);
    out := [];
    assert all.Ok? ==> [] + all.value == all.value;
    for i := 0 to num
      invariant all == After(out, ReadFrom(chunks, file, i, num))
    {
      var c := GetChunk(chunks, file, i);
      if c.Threw? {
        return out, Threw(c.code);
      }
      AfterMore(out, c, ReadFrom(chunks, file, i + 1, num));
      out := out + c.value;
    }
    return out, Ok(file.length);
  }

  lemma {:induction false} ReadsPieces(chunks: Chunks, file: GridFile, pieces: seq<seq<byte>>, i: nat)
    requires i <= |pieces|
    requires forall n :: 0 <= n < |pieces| ==> (file.id, n) in chunks && chunks[(file.id, n)] == pieces[n]
    ensures ReadFrom(chunks, file, i, |pieces|) == Ok(Joined(pieces[i..]))
    decreases |pieces| - i
  {
    if i < |pieces| {
      ReadsPieces(chunks, file, pieces, i + 1);
      assert pieces[i..][1..] == pieces[i + 1..];
    }
  }

  /** A file stored either way reads back as it was. The empty chunk a stream of exact multiples
      leaves is there but never read. */
  lemma StoredReadsBack(before: Chunks, data: seq<byte>, file: GridFile, stream: bool)
    requires file.chunkSize > 0 && file.length == |data| && forall n :: (file.id, n) !in before
    ensures var num := NumChunks(file.length, file.chunkSize);
      var pieces := if stream then CutStream(data, file.chunkSize) else Cut(data, file.chunkSize);
      var chunks := Put(before, file.id, 0, pieces);
      ReadFrom(chunks, file, 0, num) == Ok(data) &&
      (forall n :: 0 <= n < num ==> GetChunk(chunks, file, n).Ok?) &&
      (GetChunk(chunks, file, num) ==
         if stream && |data| % file.chunkSize == 0 then Ok([]) else Threw(10014))
  {
    var pieces := Cut(data, file.chunkSize);
    var stored := if stream then CutStream(data, file.chunkSize) else pieces;
    var chunks := Put(before, file.id, 0, stored);
    CutJoins(data, file.chunkSize);
    CutStreamIsCut(data, file.chunkSize);
    forall n: int
      ensures (file.id, n) in chunks <==> 0 <= n < |stored|
      ensures 0 <= n < |stored| ==> chunks[(file.id, n)] == stored[n]
    {
      PutHolds(before, file.id, 0, stored, (file.id, n));
    }
    ReadsPieces(chunks, file, pieces, 0);
    assert pieces[0..] == pieces;
  }

  /** Storing a file and writing it out again gives its bytes. */
  method RoundTrip(fs: GridFS, data: seq<byte>, id: nat, stream: bool) returns (out: seq<byte>, r: Result<nat>)
    requires fs.chunkSize > 0 && |data| < SIZE_T && forall n :: (id, n) !in fs.chunks
    modifies fs
    ensures out == data && r == Ok(|data|)
  {
    ghost var before := fs.chunks;
    var file;
    if stream {
      var fd := new File(data);
      file := fs.StoreStream(fd, id);
    } else {
      file := fs.StoreData(data, id);
    }
    StoredReadsBack(before, data, file, stream);
    out, r := Write(fs.chunks, file);
  }
}
