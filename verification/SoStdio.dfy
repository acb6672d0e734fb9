/** The buffered streams of so_stdio over a regular file, against a file with a cursor and no buffer. */
module SoStdio {
  import opened Basics

  const BUFFER_SIZE: nat := 4096

  /** The value of a byte read back through a signed `char`. */
  function SignedChar(b: Byte): (r: int)
    ensures -128 <= r < 128 && (r == b || r + 256 == b)
  {
    if b < 128 then b else b - 256
  }

  function CharOf(c: int): (b: Byte)
    ensures 0 <= c < 256 ==> b == c
    ensures -128 <= c < 0 ==> b == c + 256
  {
    c % 256
  }

  // ---- Files ----

  /** The file after one byte is written at `p`; a gap before it is filled with zeros. */
  function PutByte(content: seq<Byte>, p: nat, b: Byte): seq<Byte> {
    if p < |content| then content[p := b] else content + seq(p - |content|, _ => 0) + [b]
  }

  /** The file after `data` is written at `p`, first byte first. */
  function Overlay(content: seq<Byte>, p: nat, data: seq<Byte>): seq<Byte>
    decreases |data|
  {
    if data == [] then content
    else PutByte(Overlay(content, p, data[..|data| - 1]), p + |data| - 1, data[|data| - 1])
  }

  lemma OverlaySnoc(content: seq<Byte>, p: nat, data: seq<Byte>, b: Byte)
    ensures Overlay(content, p, data + [b]) == PutByte(Overlay(content, p, data), p + |data|, b)
  {
    assert (data + [b])[..|data|] == data;
  }

  /** A byte put behind `data`, in the same write or in the next one. */
  lemma PutBehind(content: seq<Byte>, p: nat, data: seq<Byte>, b: Byte)
    ensures Overlay(content, p, data + [b]) == PutByte(Overlay(content, p, data), p + |data|, b)
    ensures Overlay(Overlay(content, p, data), p + |data|, [b]) == PutByte(Overlay(content, p, data), p + |data|, b)
  {
    OverlaySnoc(content, p, data, b);
    OverlaySnoc(Overlay(content, p, data), p + |data|, [], b);
    assert [] + [b] == [b];
  }

  /** A write touches its own range and nothing else; a gap in front of it is filled with zeros. */
  lemma {:induction false} OverlayShape(content: seq<Byte>, p: nat, data: seq<Byte>)
    ensures var r := Overlay(content, p, data);
            && |r| == (if data != [] && p + |data| > |content| then p + |data| else |content|)
            && forall k | 0 <= k < |r| ::
                 r[k] == if p <= k < p + |data| then data[k - p] else if k < |content| then content[k] else 0
    decreases |data|
  {
    if data != [] {
      OverlayShape(content, p, data[..|data| - 1]);
    }
  }

  lemma OverlayAtEnd(content: seq<Byte>, data: seq<Byte>)
    ensures Overlay(content, |content|, data) == content + data
  {
    OverlayShape(content, |content|, data);
  }

  lemma SliceTail(b: seq<Byte>, p: nat, c: seq<Byte>, i: nat, n: int)
    requires 0 < n && p + n <= |b| && i + n <= |c| && b[p..p + n] == c[i..i + n]
    ensures b[p] == c[i] && b[p + 1..p + n] == c[i + 1..i + n]
  {
    assert b[p] == b[p..p + n][0] && c[i] == c[i..i + n][0];
    assert b[p + 1..p + n] == b[p..p + n][1..] && c[i + 1..i + n] == c[i..i + n][1..];
  }

  /** `sizes` continues `before` with writes of whole buffers only. */
  ghost predicate FullWrites(before: seq<nat>, sizes: seq<nat>) {
    before <= sizes && forall k | |before| <= k < |sizes| :: sizes[k] == BUFFER_SIZE
  }

  lemma FullWritesTransitive(a: seq<nat>, b: seq<nat>, c: seq<nat>)
    requires FullWrites(a, b) && FullWrites(b, c)
    ensures FullWrites(a, c)
  {}

  lemma ItemsOf(size: nat, nmemb: nat)
    requires size > 0
    ensures size * nmemb / size == nmemb
  {
    ModUnique(size * nmemb, nmemb, 0, size);
  }

  /** `n` bytes of a file from `p` on; past the end so_fread stores the low byte of SO_EOF. */
  function Delivered(content: seq<Byte>, p: nat, n: nat): (data: seq<Byte>)
    ensures |data| == n
  {
    if n == 0 then []
    else Delivered(content, p, n - 1) + [if p + n - 1 < |content| then content[p + n - 1] else 255]
  }

  lemma {:induction false} DeliveredIsSlice(content: seq<Byte>, p: nat, n: nat)
    requires p + n <= |content|
    ensures Delivered(content, p, n) == content[p..p + n]
    decreases n
  {
    if n > 0 {
      DeliveredIsSlice(content, p, n - 1);
      SliceGrows(content, p, n - 1);
    }
  }

  /** How much is left of a file behind `p`. */
  function Rest(content: seq<Byte>, p: nat): nat { if p <= |content| then |content| - p else 0 }

  /** How much of a block has been taken after one byte more: a new block is fetched before the first byte
      and behind the last. */
  function AfterOne(taken: nat): nat { if taken == 0 || taken == BUFFER_SIZE then 1 else taken + 1 }

  function AfterMany(taken: nat, n: nat): nat
    decreases n
  {
    if n == 0 then taken else AfterOne(AfterMany(taken, n - 1))
  }

  lemma SliceGrows(c: seq<Byte>, p: nat, n: nat)
    requires p + n < |c|
    ensures c[p..p + n + 1] == c[p..p + n] + [c[p + n]]
  {}

  lemma TakeMore(data: seq<Byte>, i: nat)
    requires i < |data|
    ensures data[..i + 1] == data[..i] + [data[i]]
  {}

  datatype Whence = SeekSet | SeekCur | SeekEnd

  /** An open regular file: reads return what is left up to the request, writes are complete. */
  class RegularFile {
    var content: seq<Byte>
    var offset: nat
    var writeSizes: seq<nat>  // one entry for every write call

    constructor (bytes: seq<Byte>)
      ensures content == bytes && offset == 0 && writeSizes == []
    {
      content, offset, writeSizes := bytes, 0, [];
    }

    function Left(): nat
      reads this
    {
      Rest(content, offset)
    }

    method Truncate()
      modifies this
      ensures content == [] && offset == 0 && writeSizes == old(writeSizes)
    {
      content, offset := [], 0;
    }

    method Read(buf: array<Byte>, count: nat) returns (n: nat)
      requires count <= buf.Length
      modifies this`offset, buf
      ensures n == Min(count, old(Left()))
      ensures offset == old(offset) + n
      ensures n > 0 ==> offset <= |content| && buf[..n] == content[old(offset)..offset]
      ensures n == 0 ==> buf[..] == old(buf[..])
    {
      n := Min(count, Left());
      forall i | 0 <= i < n {
        buf[i] := content[offset + i];
      }
      offset := offset + n;
    }

    method Write(buf: array<Byte>, count: nat)
      requires count <= buf.Length
      modifies this
      ensures content == Overlay(old(content), old(offset), buf[..count])
      ensures offset == old(offset) + count
      ensures writeSizes == old(writeSizes) + [count]
    {
      content := Overlay(content, offset, buf[..count]);
      offset := offset + count;
      writeSizes := writeSizes + [count];
    }

    method Lseek(distance: int, whence: Whence) returns (position: int)
      modifies this`offset
      ensures var target := distance + Origin(whence, old(offset), |content|);
              if target < 0 then position == -1 && offset == old(offset) else position == target == offset
    {
      position := distance + Origin(whence, offset, |content|);
      if position < 0 {
        position := -1;
      } else {
        offset := position;
      }
    }
  }

  function Origin(whence: Whence, current: nat, size: nat): nat {
    match whence
    case SeekSet => 0
    case SeekCur => current
    case SeekEnd => size
  }

  // ---- Streams ----

  datatype Mode = ModeR | ModeRPlus | ModeW | ModeWPlus {
    predicate CanRead() { ModeR? || ModeRPlus? || ModeWPlus? }

    predicate CanWrite() { ModeRPlus? || ModeW? || ModeWPlus? }

    predicate Truncates() { ModeW? || ModeWPlus? }
  }

  /** r and w are for input only and output only. */
  lemma Modes(mode: Mode)
    ensures mode.CanRead() <==> mode != ModeW
    ensures mode.CanWrite() <==> mode != ModeR
  {}

  /** What `_lastOperation` says: its text contains neither "read" nor "write", or one of them. */
  datatype Operation = NoOperation | ReadOperation | WriteOperation

  const SO_EOF: int := -1

  /** so_fgetc's answer at the end of the file is also what it delivers for a byte of all ones. */
  lemma EofIsAlsoAByte(b: Byte)
    ensures SignedChar(b) == SO_EOF <==> b == 0xff
  {}

  /** From position `at` on, a buffer holds the bytes of a file from `cursor` up to `offset`, and all of them
      up to the end of the file unless it is filled completely. `known` is its fill, or 0. */
  ghost predicate Mirrors(buffer: seq<Byte>, at: nat, content: seq<Byte>, cursor: nat, offset: nat, known: nat) {
    && cursor <= offset <= |content| && at + offset - cursor <= BUFFER_SIZE == |buffer|
    && buffer[at..at + offset - cursor] == content[cursor..offset]
    && (at + offset - cursor < BUFFER_SIZE ==> offset == |content|)
    && (known == at + offset - cursor || known == 0)
  }

  lemma MirrorsNext(buffer: seq<Byte>, at: nat, content: seq<Byte>, cursor: nat, offset: nat, known: nat)
    requires Mirrors(buffer, at, content, cursor, offset, known) && cursor < offset
    ensures buffer[at] == content[cursor] && Mirrors(buffer, at + 1, content, cursor + 1, offset, known)
  {
    SliceTail(buffer, at, content, cursor, offset - cursor);
  }

  class SoFile {
    const file: RegularFile
    const openingMode: Mode
    const buffer: array<Byte>
    var endOfFile: bool
    var errorFile: bool
    var lastOperation: Operation
    var actualPosInBuffer: nat
    var actualPosInFile: nat
    var nrBytesRead: nat

    /** Unread or just consumed bytes of the file are buffered. */
    ghost predicate Reading()
      reads this
    {
      lastOperation == ReadOperation && actualPosInBuffer > 0
    }

    /** Bytes not yet written to the file are buffered. */
    ghost predicate Writing()
      reads this
    {
      lastOperation == WriteOperation && actualPosInBuffer > 0
    }

    /** How far the kernel's file offset runs ahead of the stream's own position. */
    ghost function ReadAhead(): int
      reads this, file
    {
      if Reading() then file.offset - actualPosInFile else 0
    }

    /** How much of the buffer the last refill filled. */
    ghost function Filled(): int
      reads this, file
    {
      actualPosInBuffer + ReadAhead()
    }

    /** The buffer mirrors the file from the current position on. */
    ghost predicate Buffered()
      reads this, file, buffer
    {
      Mirrors(buffer[..], actualPosInBuffer, file.content, actualPosInFile, file.offset, nrBytesRead)
    }

    ghost predicate Valid()
      reads this, file, buffer
    {
      && buffer.Length == BUFFER_SIZE
      && actualPosInBuffer <= BUFFER_SIZE
      && (actualPosInBuffer == 0 ==> file.offset == actualPosInFile)
      && (actualPosInBuffer > 0 ==> lastOperation != NoOperation)
      && (Writing() ==> file.offset + actualPosInBuffer == actualPosInFile)
      && (Reading() ==> Buffered())
    }

    /** so_fread has not hidden how much of the buffer is filled. */
    ghost predicate KnowsFill()
      reads this, file
    {
      Reading() ==> nrBytesRead == Filled()
    }

    /** How much has been taken of the block of input in the buffer. */
    ghost function Taken(): nat
      reads this
    {
      if Reading() then actualPosInBuffer else 0
    }

    /** What so_fgetc needs to recognise the end of the file when nothing is left in the buffer. */
    ghost predicate SeesEnd()
      reads this, file
    {
      KnowsFill() || Taken() == BUFFER_SIZE
    }

    /** The file as the program sees it: what is on disk with the buffered writes on top. */
    ghost function Contents(): seq<Byte>
      reads this, file, buffer
      requires Valid()
    {
      if Writing() then Overlay(file.content, file.offset, buffer[..actualPosInBuffer]) else file.content
    }

    /** so_fopen on an existing file. */
    constructor (file: RegularFile, mode: Mode)
      modifies file
      ensures this.file == file && openingMode == mode && fresh(buffer)
      ensures Valid() && !endOfFile && !errorFile && lastOperation == NoOperation
      ensures Contents() == (if mode.Truncates() then [] else old(file.content))
      ensures mode == ModeR || mode == ModeRPlus ==> Contents() == old(file.content)
      ensures mode == ModeW || mode == ModeWPlus ==> Contents() == []
      ensures actualPosInFile == 0 && actualPosInBuffer == 0
      ensures file.writeSizes == old(file.writeSizes)
    {
      this.file := file;
      openingMode := mode;
      buffer := new Byte[BUFFER_SIZE](_ => 0);
      endOfFile, errorFile, lastOperation := false, false, NoOperation;
      actualPosInBuffer, actualPosInFile, nrBytesRead := 0, 0, 0;
      new;
      file.offset := 0;
      if mode.Truncates() {
        file.Truncate();
      }
    }

    method Ftell() returns (position: int)
      ensures position == actualPosInFile
    {
      position := actualPosInFile;
    }

    method Feof() returns (eof: bool)
      ensures eof == endOfFile
    {
      eof := endOfFile;
    }

    /** Writes out what is buffered; refuses, changing nothing, unless the last operation was a write. */
    method Fflush() returns (r: int)
      requires buffer.Length == BUFFER_SIZE && actualPosInBuffer <= BUFFER_SIZE
      modifies this`actualPosInBuffer, file, buffer
      ensures (r == 0 <==> lastOperation == WriteOperation) && (r == 0 || r == SO_EOF)
      ensures r == SO_EOF ==> unchanged(this) && unchanged(file) && unchanged(buffer)
      ensures r == 0 ==>
                && actualPosInBuffer == 0
                && file.content == Overlay(old(file.content), old(file.offset), old(buffer[..actualPosInBuffer]))
                && file.offset == old(file.offset) + old(actualPosInBuffer)
                && file.writeSizes == old(file.writeSizes) + [old(actualPosInBuffer)]
      ensures r == 0 && old(Valid()) ==> Valid() && Contents() == old(Contents())
    {
      if lastOperation == WriteOperation {
        file.Write(buffer, actualPosInBuffer);
        buffer[0] := 0;
        actualPosInBuffer := 0;
        return 0;
      }
      return SO_EOF;
    }

    /** The refill of so_fgetc. Whatever the buffer holds is overwritten unless the file is at its end. */
    method Refill() returns (bRet: nat)
      requires buffer.Length == BUFFER_SIZE
      modifies this, file`offset, buffer
      ensures bRet == Min(BUFFER_SIZE, old(file.Left())) && file.offset == old(file.offset) + bRet
      ensures bRet == 0 ==>
                && endOfFile && unchanged(this`lastOperation) && unchanged(this`actualPosInBuffer)
                && unchanged(this`nrBytesRead) && buffer[..] == old(buffer[..])
      ensures bRet > 0 ==>
                && lastOperation == ReadOperation && actualPosInBuffer == 0 && nrBytesRead == bRet
                && unchanged(this`endOfFile)
                && file.offset <= |file.content| && buffer[..bRet] == file.content[old(file.offset)..file.offset]
      ensures unchanged(this`actualPosInFile) && unchanged(this`errorFile)
    {
      bRet := file.Read(buffer, BUFFER_SIZE);
      if bRet == 0 {
        endOfFile := true;
      } else {
        lastOperation := ReadOperation;
        actualPosInBuffer := 0;
        nrBytesRead := bRet;
      }
    }

    /** The delivery step of so_fgetc: the next byte of the buffer, unless it is known to be used up. */
    method TakeChar() returns (r: int)
      requires actualPosInBuffer == nrBytesRead || actualPosInBuffer < buffer.Length
      modifies this`actualPosInBuffer, this`actualPosInFile, this`endOfFile
      ensures if old(actualPosInBuffer) == nrBytesRead then
                && r == SO_EOF && endOfFile && unchanged(this`actualPosInBuffer) && unchanged(this`actualPosInFile)
              else
                && r == SignedChar(buffer[old(actualPosInBuffer)]) && endOfFile == old(endOfFile)
                && actualPosInBuffer == old(actualPosInBuffer) + 1 && actualPosInFile == old(actualPosInFile) + 1
    {
      var currentPos := actualPosInBuffer;
      if currentPos == nrBytesRead {
        endOfFile := true;
        return SO_EOF;
      }
      var position := actualPosInBuffer;
      actualPosInBuffer := actualPosInBuffer + 1;
      actualPosInFile := actualPosInFile + 1;
      return SignedChar(buffer[position]);
    }

    /** One character, from any state of the buffer: when a block is fetched first, what is delivered, and
        when the end of the file is reported. */
    method Fgetc() returns (r: int)
      requires buffer.Length == BUFFER_SIZE && actualPosInBuffer <= BUFFER_SIZE
      modifies this, file`offset, buffer
      ensures var fetch := old(actualPosInBuffer) == 0 || old(actualPosInBuffer) == BUFFER_SIZE
                           || old(lastOperation) == WriteOperation;
              var n := Min(BUFFER_SIZE, old(file.Left()));
              var position := old(actualPosInBuffer);
              if !openingMode.CanRead() then
                && r == SO_EOF && errorFile && unchanged(file) && unchanged(buffer)
                && unchanged(this`endOfFile) && unchanged(this`lastOperation) && unchanged(this`nrBytesRead)
                && unchanged(this`actualPosInBuffer) && unchanged(this`actualPosInFile)
              else if (if fetch then n == 0 else position == old(nrBytesRead)) then
                && r == SO_EOF && endOfFile && unchanged(file) && buffer[..] == old(buffer[..])
                && unchanged(this`errorFile) && unchanged(this`lastOperation) && unchanged(this`nrBytesRead)
                && unchanged(this`actualPosInBuffer) && unchanged(this`actualPosInFile)
              else
                && unchanged(this`errorFile) && unchanged(this`endOfFile)
                && actualPosInFile == old(actualPosInFile) + 1
                && -128 <= r < 128
                && if fetch then
                     && r == SignedChar(file.content[old(file.offset)])
                     && (r == file.content[old(file.offset)] || r + 256 == file.content[old(file.offset)])
                     && lastOperation == ReadOperation && actualPosInBuffer == 1 && nrBytesRead == n
                     && file.offset == old(file.offset) + n <= |file.content|
                     && buffer[..n] == file.content[old(file.offset)..file.offset]
                   else
                     && r == SignedChar(buffer[position]) && (r == buffer[position] || r + 256 == buffer[position])
                     && unchanged(file) && unchanged(buffer)
                     && unchanged(this`lastOperation) && unchanged(this`nrBytesRead)
                     && actualPosInBuffer == position + 1
    {
      if openingMode.CanRead() {
        var currentPos := actualPosInBuffer;
        if currentPos == 0 || currentPos == BUFFER_SIZE || lastOperation == WriteOperation {
          var bRet := Refill();
          if bRet == 0 {
            return SO_EOF;
          }
          assert buffer[0] == buffer[..bRet][0] == file.content[old(file.offset)..file.offset][0];
        }
        r := TakeChar();
      } else {
        errorFile := true;
        return SO_EOF;
      }
    }

    /** so_fgetc on a stream that holds no unwritten output. In order it is the byte at the cursor, or
        SO_EOF and the flag at the end of the file. One case spoils the stream: at the end of the file, when
        so_fread has hidden how much of a partly taken block is filled, a byte left over in the buffer is
        delivered and the position moves past the end. */
    method GetChar() returns (r: int)
      requires Valid() && !Writing()
      modifies this, file`offset, buffer
      ensures Valid() <==> !openingMode.CanRead() || old(actualPosInFile < |Contents()| || SeesEnd())
      ensures !Writing() && file.content == old(Contents())
      ensures errorFile == (old(errorFile) || !openingMode.CanRead())
      ensures openingMode.CanRead() && old(actualPosInFile < |Contents()|) ==>
                && r == SignedChar(file.content[old(actualPosInFile)])
                && -128 <= r < 128
                && (r == file.content[old(actualPosInFile)] || r + 256 == file.content[old(actualPosInFile)])
                && actualPosInFile == old(actualPosInFile) + 1 && endOfFile == old(endOfFile)
                && Reading() && Taken() == AfterOne(old(Taken())) && (KnowsFill() <==> old(SeesEnd()))
      ensures Valid() && !(openingMode.CanRead() && old(actualPosInFile < |Contents()|)) ==>
                && r == SO_EOF && actualPosInFile == old(actualPosInFile)
                && endOfFile == (old(endOfFile) || openingMode.CanRead()) && unchanged(this`lastOperation)
                && Taken() == old(Taken()) && (KnowsFill() <==> old(KnowsFill()))
      ensures !Valid() ==>
                && r == SignedChar(old(buffer[actualPosInBuffer])) && endOfFile == old(endOfFile)
                && actualPosInFile == old(actualPosInFile) + 1 > |file.content|
    {
      ghost var cursor, offset := actualPosInFile, file.offset;
      if Reading() && cursor < offset {
        MirrorsNext(buffer[..], actualPosInBuffer, file.content, cursor, offset, nrBytesRead);
      }
      r := Fgetc();
      if file.offset > offset {
        MirrorsNext(buffer[..], 0, file.content, cursor, file.offset, nrBytesRead);
      }
    }

    /** so_fgetc right after buffered output, which section 7.21.5.3 of C11 forbids. Unless the file on disk
        is at its end, the output is dropped, and the byte that it should have replaced is delivered. */
    method GetAfterPut() returns (r: int)
      requires Valid() && Writing() && openingMode.CanRead()
      modifies this, file`offset, buffer
      ensures old(file.Left()) == 0 ==>
                r == SO_EOF && endOfFile && Valid() && Writing() && Contents() == old(Contents())
      ensures old(file.Left()) > 0 ==> r == SignedChar(old(file.content[file.offset])) && !Writing() && !Valid()
    {
      r := Fgetc();
    }

    method StoreChar(b: Byte)
      requires buffer.Length == BUFFER_SIZE && actualPosInBuffer < BUFFER_SIZE
      modifies this`actualPosInBuffer, this`actualPosInFile, this`lastOperation, buffer
      ensures actualPosInBuffer == old(actualPosInBuffer) + 1
      ensures buffer[..actualPosInBuffer] == old(buffer[..actualPosInBuffer]) + [b]
      ensures actualPosInFile == old(actualPosInFile) + 1
      ensures lastOperation == WriteOperation
    {
      buffer[actualPosInBuffer] := b;
      actualPosInBuffer := actualPosInBuffer + 1;
      actualPosInFile := actualPosInFile + 1;
      lastOperation := WriteOperation;
    }

    /** One character goes behind whatever the buffer holds, after a flush if the buffer is full.
        A full buffer of read bytes cannot be flushed, and the character is refused. */
    method Fputc(c: int) returns (r: int)
      requires buffer.Length == BUFFER_SIZE && actualPosInBuffer <= BUFFER_SIZE
      modifies this, file, buffer
      ensures var refused := !openingMode.CanWrite()
                             || (old(actualPosInBuffer) == BUFFER_SIZE && old(lastOperation) != WriteOperation);
              && r == (if refused then SO_EOF else c)
              && errorFile == (old(errorFile) || refused)
              && endOfFile == old(endOfFile) && nrBytesRead == old(nrBytesRead)
              && actualPosInFile == old(actualPosInFile) + (if refused then 0 else 1)
              && lastOperation == (if refused then old(lastOperation) else WriteOperation)
              && (refused ==> unchanged(file) && unchanged(buffer) && unchanged(this`actualPosInBuffer))
              && (!refused ==>
                    && 0 < actualPosInBuffer <= BUFFER_SIZE
                    && (0 <= c < 256 ==> buffer[actualPosInBuffer - 1] == c)
                    && (-128 <= c < 0 ==> buffer[actualPosInBuffer - 1] == c + 256))
              && (!refused && old(actualPosInBuffer) < BUFFER_SIZE ==>
                    && unchanged(file) && actualPosInBuffer == old(actualPosInBuffer) + 1
                    && buffer[..actualPosInBuffer] == old(buffer[..actualPosInBuffer]) + [CharOf(c)])
              && (!refused && old(actualPosInBuffer) == BUFFER_SIZE ==>
                    && file.content == Overlay(old(file.content), old(file.offset), old(buffer[..]))
                    && file.offset == old(file.offset) + BUFFER_SIZE
                    && file.writeSizes == old(file.writeSizes) + [BUFFER_SIZE]
                    && actualPosInBuffer == 1 && buffer[..1] == [CharOf(c)])
    {
      if openingMode.CanWrite() {
        var currentPos := actualPosInBuffer;
        if currentPos == BUFFER_SIZE {
          var bRet := Fflush();
          if bRet == SO_EOF {
            errorFile := true;
            return SO_EOF;
          }
          assert old(buffer[..actualPosInBuffer]) == old(buffer[..]);
        }
        StoreChar(CharOf(c));
        return c;
      } else {
        errorFile := true;
        return SO_EOF;
      }
    }

    /** Bytes handed to write calls, when each is a full buffer, and bytes waiting in the buffer. */
    ghost function Sent(): nat
      reads this, file
    {
      BUFFER_SIZE * |file.writeSizes| + actualPosInBuffer
    }

    /** so_fputc on a stream that holds no read bytes: a write of one byte at the cursor, or a refusal. */
    method PutChar(c: int) returns (r: int)
      requires Valid() && !Reading()
      modifies this, file, buffer
      ensures Valid() && !Reading() && endOfFile == old(endOfFile)
      ensures errorFile == (old(errorFile) || !openingMode.CanWrite())
      ensures openingMode.CanWrite() ==>
                && r == c && Writing()
                && Contents() == PutByte(old(Contents()), old(actualPosInFile), CharOf(c))
                && actualPosInFile == old(actualPosInFile) + 1
                && FullWrites(old(file.writeSizes), file.writeSizes) && Sent() == old(Sent()) + 1
      ensures !openingMode.CanWrite() ==>
                && r == SO_EOF && Contents() == old(Contents()) && unchanged(file)
                && unchanged(this`actualPosInFile) && unchanged(this`actualPosInBuffer)
    {
      ghost var before := buffer[..actualPosInBuffer];
      ghost var content, offset := file.content, file.offset;
      assert Contents() == Overlay(content, offset, before);
      assert actualPosInBuffer == BUFFER_SIZE ==> before == buffer[..];
      r := Fputc(c);
      if openingMode.CanWrite() {
        PutBehind(content, offset, before, CharOf(c));
        assert file.writeSizes == old(file.writeSizes) + if |before| == BUFFER_SIZE then [BUFFER_SIZE] else [];
      } else {
        assert buffer[..actualPosInBuffer] == before;
      }
    }

    /** Where a seek lands. */
    ghost function Target(distance: int, whence: Whence): int
      reads this, file, buffer
      requires Valid()
    {
      distance + Origin(whence, actualPosInFile + ReadAhead(), |Contents()|)
    }

    /** How far a relative seek after input is off: by what is left of the block in the buffer, which starts
        where the position was at the last refill and ends at its 4096th byte or with the file. */
    lemma RelativeSeek(distance: int)
      requires Valid()
      ensures Target(distance, SeekCur) == actualPosInFile + distance + ReadAhead()
      ensures var start := actualPosInFile - Taken();
              ReadAhead() == if Taken() == 0 then 0 else Min(BUFFER_SIZE, |Contents()| - start) - Taken()
    {}

    /** Seeks drop what is buffered. SEEK_CUR counts from the kernel's offset, which is the stream's own
        position only when nothing was read ahead; a refused seek loses the read-ahead. */
    method Fseek(distance: int, whence: Whence) returns (r: int)
      requires Valid()
      modifies this`actualPosInBuffer, this`actualPosInFile, file, buffer
      ensures actualPosInBuffer == 0
      ensures whence.SeekSet? && distance >= 0 ==> r == 0 && actualPosInFile == distance
      ensures whence.SeekEnd? && old(|Contents()|) + distance >= 0 ==>
                r == 0 && actualPosInFile == old(|Contents()|) + distance
      ensures old(Target(distance, whence)) >= 0 ==>
                r == 0 && Valid() && actualPosInFile == old(Target(distance, whence))
      ensures old(Target(distance, whence)) < 0 ==>
                r == SO_EOF && actualPosInFile == old(actualPosInFile) && (Valid() <==> old(ReadAhead()) == 0)
      ensures Valid() ==> Contents() == old(Contents())
      ensures file.content == old(Contents())
    {
      if lastOperation == WriteOperation {
        var bRet := Fflush();
        if bRet == SO_EOF {
          return SO_EOF;
        }
      } else if lastOperation == ReadOperation {
        actualPosInBuffer := 0;
        buffer[0] := 0;
      }
      var position := file.Lseek(distance, whence);
      if position < 0 {
        return SO_EOF;
      }
      actualPosInFile := position;
      return 0;
    }

    /** Nothing hides the end of the file from a read of `n` bytes: it ends before, the block in the buffer
        is known or used up by then, or another block follows. */
    ghost predicate EndInSight(n: nat)
      reads this, file, buffer
      requires Valid()
    {
      var left := Rest(Contents(), actualPosInFile);
      n <= left || KnowsFill() || Taken() + left >= BUFFER_SIZE
    }

    /** One more character of a read, stored at `ptr[i]`. */
    method GetNext(ptr: array<Byte>, i: nat)
      requires Valid() && !Writing() && i < ptr.Length && ptr != buffer
      requires openingMode.CanRead() ==> actualPosInFile < |Contents()| || SeesEnd()
      modifies this, file`offset, buffer, ptr
      ensures Valid() && !Writing() && file.content == old(Contents())
      ensures errorFile == (old(errorFile) || !openingMode.CanRead())
      ensures ptr[..i] == old(ptr[..i])
      ensures openingMode.CanRead() && old(actualPosInFile < |Contents()|) ==>
                && ptr[i] == file.content[old(actualPosInFile)]
                && actualPosInFile == old(actualPosInFile) + 1 && endOfFile == old(endOfFile)
                && Taken() == AfterOne(old(Taken())) && (KnowsFill() <==> old(SeesEnd()))
      ensures !(openingMode.CanRead() && old(actualPosInFile < |Contents()|)) ==>
                && ptr[i] == 255 && actualPosInFile == old(actualPosInFile)
                && endOfFile == (old(endOfFile) || openingMode.CanRead())
                && Taken() == old(Taken()) && (KnowsFill() <==> old(KnowsFill()))
    {
      var c := GetChar();
      ptr[i] := CharOf(c);
    }

    /** `i` characters of a read are stored that began at `cursor`, with `taken` bytes of a block taken whose
        fill was known if `knew`, and with the end-of-file flag at `flag`. */
    ghost predicate ReadSoFar(ptr: array<Byte>, i: nat, cursor: nat, taken: nat, knew: bool, flag: bool)
      requires i <= ptr.Length
      reads this, file, buffer, ptr
    {
      var left := Rest(file.content, cursor);
      && Valid() && !Writing() && !errorFile && endOfFile == (flag || left < i)
      && actualPosInFile == cursor + Min(i, left) && ptr[..i] == Delivered(file.content, cursor, i)
      && Taken() == AfterMany(taken, Min(i, left))
      && (KnowsFill() <==> knew || taken + Min(i, left) > BUFFER_SIZE)
      && (!KnowsFill() ==> Taken() == taken + Min(i, left))
    }

    /** Before the `i`-th character; on a stream that cannot be read or is in error, nothing has been read. */
    ghost predicate ReadState(ptr: array<Byte>, i: nat, total: nat, ok: bool, cursor: nat, taken: nat, knew: bool,
                              flag: bool)
      requires i <= ptr.Length
      reads this, file, buffer, ptr
    {
      var left := Rest(file.content, cursor);
      if ok then
        && openingMode.CanRead() && ReadSoFar(ptr, i, cursor, taken, knew, flag)
        && (total <= left || knew || taken + left >= BUFFER_SIZE)
      else Valid() && !Writing() && i == 0 && (openingMode.CanRead() ==> errorFile && EndInSight(total))
    }

    lemma StartReading(ptr: array<Byte>, total: nat)
      requires Valid() && !Writing() && total <= ptr.Length && (openingMode.CanRead() ==> EndInSight(total))
      ensures ReadState(ptr, 0, total, openingMode.CanRead() && !errorFile, actualPosInFile, Taken(), KnowsFill(),
                        endOfFile)
    {}

    lemma EndStillInSight(ptr: array<Byte>, i: nat, total: nat, ok: bool, cursor: nat, taken: nat, knew: bool,
                          flag: bool)
      requires i < total <= ptr.Length && ReadState(ptr, i, total, ok, cursor, taken, knew, flag)
      ensures Valid() && !Writing() && (openingMode.CanRead() ==> actualPosInFile < |Contents()| || SeesEnd())
    {}

    /** One more of them; if it cannot be had, the error is up afterwards. */
    method ReadOne(ptr: array<Byte>, i: nat, ghost total: nat, ghost ok: bool, ghost cursor: nat, ghost taken: nat,
                   ghost knew: bool, ghost flag: bool)
      requires i < total <= ptr.Length && ptr != buffer && ReadState(ptr, i, total, ok, cursor, taken, knew, flag)
      modifies this, file`offset, buffer, ptr
      ensures file.content == old(file.content)
      ensures if ok then !errorFile && ReadState(ptr, i + 1, total, ok, cursor, taken, knew, flag)
              else Valid() && !Writing() && errorFile
    {
      ghost var before := ptr[..i];
      EndStillInSight(ptr, i, total, ok, cursor, taken, knew, flag);
      GetNext(ptr, i);
      if ok {
        assert ptr[..i + 1] == Delivered(file.content, cursor, i + 1) by {
          assert ptr[..i + 1] == before + [ptr[i]];
        }
        var left := Rest(file.content, cursor);
        assert Taken() == AfterMany(taken, Min(i + 1, left));
        assert KnowsFill() <==> knew || taken + Min(i + 1, left) > BUFFER_SIZE;
      }
    }

    /** The loop of so_fread. It does not stop at the end of the file. */
    method IsReading(total: nat, ptr: array<Byte>) returns (cnt: nat)
      requires Valid() && !Writing() && total <= ptr.Length && ptr != buffer
      requires openingMode.CanRead() ==> EndInSight(total)
      modifies this, file`offset, buffer, ptr
      ensures file.content == old(Contents())
      ensures if openingMode.CanRead() && !old(errorFile) then
                && cnt == total
                && ReadSoFar(ptr, total, old(actualPosInFile), old(Taken()), old(KnowsFill()), old(endOfFile))
              else Valid() && !Writing() && (total > 0 ==> cnt == 0 && errorFile)
    {
      var i := 0;
      ghost var cursor, taken, knew, flag := actualPosInFile, Taken(), KnowsFill(), endOfFile;
      ghost var ok := openingMode.CanRead() && !errorFile;
      StartReading(ptr, total);
      while i < total
        invariant i <= total && file.content == old(file.content)
        invariant ReadState(ptr, i, total, ok, cursor, taken, knew, flag)
      {
        ReadOne(ptr, i, total, ok, cursor, taken, knew, flag);
        if errorFile {
          break;
        }
        i := i + 1;
      }
      cnt := i;
    }

    /** so_fread. It forgets how much of the block in the buffer is filled, and past the end of the file it
        fills up with the low byte of SO_EOF and still claims all items. */
    method Fread(ptr: array<Byte>, size: nat, nmemb: nat) returns (n: nat)
      requires Valid() && !Writing() && size > 0 && size * nmemb <= ptr.Length && ptr != buffer
      requires openingMode.CanRead() ==>
                 var left := Rest(Contents(), actualPosInFile);
                 size * nmemb <= left || Taken() == 0 || Taken() + left >= BUFFER_SIZE
      modifies this, file`offset, buffer, ptr
      ensures Valid() && !Writing() && file.content == old(Contents()) && lastOperation == ReadOperation
      ensures if openingMode.CanRead() && !old(errorFile) then
                var total := size * nmemb;
                var delivered := Min(total, Rest(file.content, old(actualPosInFile)));
                && n == nmemb && actualPosInFile == old(actualPosInFile) + delivered
                && ptr[..total] == Delivered(file.content, old(actualPosInFile), total)
                && !errorFile && endOfFile == (old(endOfFile) || delivered < total)
                && Taken() == AfterMany(old(Taken()), delivered)
                && (KnowsFill() <==> old(Taken()) == 0 || old(Taken()) + delivered > BUFFER_SIZE)
              else size * nmemb > 0 ==> n == 0 && errorFile
    {
      nrBytesRead := 0;
      var total := size * nmemb;
      var reading := IsReading(total, ptr);
      lastOperation := ReadOperation;
      n := reading / size;
      ItemsOf(size, nmemb);
    }

    /** The bytes `out` of a write at `cursor` of `content` are written or buffered. */
    ghost predicate Wrote(out: seq<Byte>, content: seq<Byte>, cursor: nat, sizes: seq<nat>, sent: nat, flag: bool)
      reads this, file, buffer
    {
      && Valid() && !Reading() && endOfFile == flag
      && Contents() == Overlay(content, cursor, out) && actualPosInFile == cursor + |out|
      && FullWrites(sizes, file.writeSizes) && Sent() == sent + |out|
    }

    /** One more of them, on a stream that can write. */
    method PutNext(c: Byte, ghost out: seq<Byte>, ghost content: seq<Byte>, ghost cursor: nat, ghost sizes: seq<nat>,
                   ghost sent: nat, ghost flag: bool)
      requires Wrote(out, content, cursor, sizes, sent, flag)
      modifies this, file, buffer
      ensures Wrote(if openingMode.CanWrite() then out + [c] else out, content, cursor, sizes, sent, flag)
      ensures errorFile == (old(errorFile) || !openingMode.CanWrite())
      ensures if openingMode.CanWrite() then Writing() else unchanged(this`actualPosInBuffer)
    {
      ghost var before := file.writeSizes;
      OverlaySnoc(content, cursor, out, c);
      var r := PutChar(SignedChar(c));
      FullWritesTransitive(sizes, before, file.writeSizes);
    }

    /** The loop of so_fwrite: it stops after one character once the end-of-file or the error flag is up. */
    method IsWriting(total: nat, ptr: array<Byte>) returns (cnt: nat)
      requires Valid() && !Reading() && total <= ptr.Length && ptr != buffer
      modifies this, file, buffer
      ensures Valid() && !Reading() && endOfFile == old(endOfFile)
      ensures errorFile == (old(errorFile) || (total > 0 && !openingMode.CanWrite()))
      ensures var written := Written(old(errorFile), total);
              && Contents() == Overlay(old(Contents()), old(actualPosInFile), ptr[..written])
              && actualPosInFile == old(actualPosInFile) + written
              && Sent() == old(Sent()) + written
      ensures FullWrites(old(file.writeSizes), file.writeSizes)
      ensures if total > 0 && openingMode.CanWrite() then Writing() else actualPosInBuffer == old(actualPosInBuffer)
    {
      var i := 0;
      ghost var content, cursor, sizes, sent, flag := Contents(), actualPosInFile, file.writeSizes, Sent(), endOfFile;
      ghost var data := ptr[..];
      ghost var out: seq<Byte> := [];
      while i < total
        invariant i <= total && out == data[..i]
        invariant Wrote(out, content, cursor, sizes, sent, flag) && errorFile == old(errorFile)
        invariant if i > 0 then !endOfFile && !errorFile && openingMode.CanWrite() && Writing()
                  else actualPosInBuffer == old(actualPosInBuffer)
      {
        TakeMore(data, i);
        PutNext(ptr[i], out, content, cursor, sizes, sent, flag);
        out := if openingMode.CanWrite() then data[..i + 1] else out;
        if errorFile || endOfFile {
          break;
        }
        i := i + 1;
      }
      cnt := i;
    }

    /** How many of `total` bytes so_fwrite really writes on a stream whose error flag was at `error`. */
    function Written(error: bool, total: nat): nat
      reads this`endOfFile
    {
      if !openingMode.CanWrite() then 0 else if endOfFile || error then Min(1, total) else total
    }

    /** so_fwrite. It always claims to have written every item. */
    method Fwrite(ptr: array<Byte>, size: nat, nmemb: nat) returns (n: nat)
      requires Valid() && !Reading() && size * nmemb <= ptr.Length && ptr != buffer
      modifies this, file, buffer
      ensures n == nmemb
      ensures Valid() && !Reading() && endOfFile == old(endOfFile)
      ensures errorFile == (old(errorFile) || (size * nmemb > 0 && !openingMode.CanWrite()))
      ensures var written := Written(old(errorFile), size * nmemb);
              && Contents() == Overlay(old(Contents()), old(actualPosInFile), ptr[..written])
              && actualPosInFile == old(actualPosInFile) + written
              && Sent() == old(Sent()) + written
      ensures actualPosInFile - old(actualPosInFile) == if !openingMode.CanWrite() then 0
                                                        else if old(endOfFile || errorFile) then Min(1, size * nmemb)
                                                        else size * nmemb
      ensures FullWrites(old(file.writeSizes), file.writeSizes)
      ensures lastOperation == WriteOperation
      ensures if size * nmemb > 0 && openingMode.CanWrite() then Writing()
              else actualPosInBuffer == old(actualPosInBuffer)
    {
      var total := size * nmemb;
      var ok := IsWriting(total, ptr);
      lastOperation := WriteOperation;
      n := nmemb;
    }

    /** so_fclose, up to closing the descriptor: everything written is on disk. */
    method Fclose() returns (r: int)
      requires Valid()
      modifies this, file, buffer
      ensures r == 0
      ensures file.content == old(Contents())
      ensures file.writeSizes == old(file.writeSizes)
                + (if old(lastOperation) == WriteOperation then [old(actualPosInBuffer)] else [])
    {
      if lastOperation == WriteOperation {
        var ok := Fflush();
        assert ok == 0;
      }
      return 0;
    }
  }

  /** Output with input in the buffer at the end of the file: what was taken of the block is written again in
      front of the character, or, after a full block, the character is refused. */
  method PutAfterInput(stream: SoFile, c: int) returns (r: int)
    requires stream.Valid() && stream.openingMode.CanWrite()
    requires stream.Reading() && stream.actualPosInFile == |stream.Contents()|
    modifies stream, stream.file, stream.buffer
    ensures var rewritten := old(stream.buffer[..stream.actualPosInBuffer]);
            if |rewritten| == BUFFER_SIZE then r == SO_EOF && stream.file.content == old(stream.file.content)
            else r == c && stream.file.content == old(stream.file.content) + rewritten + [CharOf(c)]
  {
    r := stream.Fputc(c);
    ghost var pending := stream.buffer[..stream.actualPosInBuffer];
    ghost var content := stream.file.content;
    var flushed := stream.Fflush();
    if flushed == 0 {
      OverlayAtEnd(content, pending);
    }
  }

  /** Output at the end of the file, after input that met it or not, as section 7.21.5.3 of C11 allows:
      the character is appended exactly when no input is left in the buffer. */
  method PutAtEnd(stream: SoFile, c: int) returns (r: int)
    requires stream.Valid() && stream.openingMode.CanWrite() && stream.actualPosInFile == |stream.Contents()|
    modifies stream, stream.file, stream.buffer
    ensures stream.file.content == old(stream.Contents()) + [CharOf(c)] <==> old(stream.Taken()) == 0
  {
    ghost var content := stream.Contents();
    if stream.lastOperation == ReadOperation && stream.actualPosInBuffer > 0 {
      r := PutAfterInput(stream, c);
      assert |stream.file.content| != |content| + 1;
    } else {
      r := stream.PutChar(c);
      var flushed := stream.Fflush();
    }
  }

  // ---- The unbuffered reference ----

  /** A file with a cursor. The other fields only serve to say which calls are in order and what so_fflush
      answers: the kind of the last operation, whether output is pending, how much of a block of input has
      been taken, and whether so_fread has hidden how much of the block there is. */
  datatype Plain = Plain(content: seq<Byte>, cursor: nat, eof: bool,
                         op: Operation, pending: bool, taken: nat, stale: bool)

  function Opened(content: seq<Byte>): Plain { Plain(content, 0, false, NoOperation, false, 0, false) }

  datatype Op =
    | Getc
    | Putc(c: int)
    | Flush
    | Seek(distance: int, whence: Whence)
    | Tell
    | Eof
    | Get(count: nat)
    | Put(data: seq<Byte>)

  datatype Out =
    | Char(c: int)
    | End
    | Result(code: int)
    | Count(n: nat)
    | Position(at: int)
    | Flag(eof: bool)
    | Bytes(data: seq<Byte>)

  function PlainTarget(p: Plain, distance: int, whence: Whence): int {
    distance + Origin(whence, p.cursor, |p.content|)
  }

  /** How far the kernel's offset is ahead of the cursor. */
  function Ahead(p: Plain): int {
    if p.taken == 0 then 0 else Min(BUFFER_SIZE, |p.content| - (p.cursor - p.taken)) - p.taken
  }

  /** The calls a program may make next: input when no output is pending, output when no input is left in the
      buffer, a relative or a failing seek when the kernel is not ahead. */
  predicate Allowed(p: Plain, mode: Mode, op: Op) {
    match op
    case Getc => mode.CanRead() && !p.pending && (p.cursor < |p.content| || !p.stale || p.taken == BUFFER_SIZE)
    case Putc(_) => mode.CanWrite() && p.taken == 0
    case Flush => true
    case Seek(distance, whence) => whence.SeekCur? || PlainTarget(p, distance, whence) < 0 ==> Ahead(p) == 0
    case Tell => true
    case Eof => true
    case Get(count) => mode.CanRead() && !p.pending && count <= Rest(p.content, p.cursor)
    case Put(data) => mode.CanWrite() && p.taken == 0 && (p.eof ==> |data| <= 1)
  }

  /** The end-of-file flag, once up, stays up: so_fseek does not clear it. */
  function PlainStep(p: Plain, op: Op): Plain {
    match op
    case Getc =>
      if p.cursor < |p.content| then
        p.(cursor := p.cursor + 1, op := ReadOperation, taken := AfterOne(p.taken),
           stale := p.stale && p.taken != BUFFER_SIZE)
      else p.(eof := true)
    case Putc(c) =>
      p.(content := PutByte(p.content, p.cursor, CharOf(c)), cursor := p.cursor + 1, op := WriteOperation,
         pending := true)
    case Flush => p.(pending := false)
    case Seek(distance, whence) =>
      var target := PlainTarget(p, distance, whence);
      p.(cursor := if target < 0 then p.cursor else target, pending := false, taken := 0, stale := false)
    case Tell => p
    case Eof => p
    case Get(count) =>
      p.(cursor := p.cursor + count, op := ReadOperation, taken := AfterMany(p.taken, count),
         stale := p.taken > 0 && p.taken + count <= BUFFER_SIZE)
    case Put(data) =>
      p.(content := Overlay(p.content, p.cursor, data), cursor := p.cursor + |data|, op := WriteOperation,
         pending := p.pending || data != [])
  }

  /** so_fflush answers SO_EOF unless the last operation was output. */
  function PlainOut(p: Plain, op: Op): Out {
    match op
    case Getc => if p.cursor < |p.content| then Char(SignedChar(p.content[p.cursor])) else End
    case Putc(c) => Char(c)
    case Flush => Result(if p.op == WriteOperation then 0 else SO_EOF)
    case Seek(distance, whence) => Result(if PlainTarget(p, distance, whence) < 0 then SO_EOF else 0)
    case Tell => Position(p.cursor)
    case Eof => Flag(p.eof)
    case Get(count) => Bytes(Inside(p.content, p.cursor, count))
    case Put(data) => Count(|data|)
  }

  predicate AllAllowed(p: Plain, mode: Mode, ops: seq<Op>)
    decreases |ops|
  {
    ops == [] || (Allowed(p, mode, ops[0]) && AllAllowed(PlainStep(p, ops[0]), mode, ops[1..]))
  }

  function PlainOuts(p: Plain, ops: seq<Op>): seq<Out>
    decreases |ops|
  {
    if ops == [] then [] else [PlainOut(p, ops[0])] + PlainOuts(PlainStep(p, ops[0]), ops[1..])
  }

  function PlainEnd(p: Plain, ops: seq<Op>): Plain
    decreases |ops|
  {
    if ops == [] then p else PlainEnd(PlainStep(p, ops[0]), ops[1..])
  }

  ghost predicate Refines(stream: SoFile, p: Plain)
    reads stream, stream.file, stream.buffer
  {
    && stream.Valid() && !stream.errorFile
    && stream.Contents() == p.content && stream.actualPosInFile == p.cursor && stream.endOfFile == p.eof
    && stream.lastOperation == p.op && (stream.Writing() <==> p.pending)
    && stream.Taken() == p.taken && (stream.KnowsFill() <==> !p.stale)
  }

  /** The end of the file is told from the position: a character can be equal to SO_EOF. */
  method PerformGetc(stream: SoFile, ghost p: Plain) returns (out: Out)
    requires Refines(stream, p) && Allowed(p, stream.openingMode, Getc)
    modifies stream, stream.file, stream.buffer
    ensures Refines(stream, PlainStep(p, Getc)) && out == PlainOut(p, Getc)
  {
    var position := stream.actualPosInFile;
    var c := stream.GetChar();
    out := if stream.actualPosInFile == position then End else Char(c);
  }

  method PerformSeek(stream: SoFile, distance: int, whence: Whence, ghost p: Plain) returns (out: Out)
    requires Refines(stream, p) && Allowed(p, stream.openingMode, Seek(distance, whence))
    modifies stream, stream.file, stream.buffer
    ensures Refines(stream, PlainStep(p, Seek(distance, whence))) && out == PlainOut(p, Seek(distance, whence))
  {
    stream.RelativeSeek(distance);
    var r := stream.Fseek(distance, whence);
    out := Result(r);
  }

  /** so_fread of `count` bytes that are there. */
  method Fetch(stream: SoFile, count: nat) returns (data: seq<Byte>)
    requires stream.Valid() && !stream.Writing() && !stream.errorFile && stream.openingMode.CanRead()
    requires count <= Rest(stream.Contents(), stream.actualPosInFile)
    modifies stream, stream.file`offset, stream.buffer
    ensures stream.Valid() && !stream.Writing() && !stream.errorFile && stream.endOfFile == old(stream.endOfFile)
    ensures stream.file.content == old(stream.Contents())
    ensures stream.actualPosInFile == old(stream.actualPosInFile) + count
    ensures data == Inside(stream.file.content, old(stream.actualPosInFile), count)
    ensures stream.Taken() == AfterMany(old(stream.Taken()), count)
    ensures stream.KnowsFill() <==> old(stream.Taken()) == 0 || old(stream.Taken()) + count > BUFFER_SIZE
    ensures stream.lastOperation == ReadOperation
  {
    var ptr := new Byte[count](_ => 0);
    if stream.actualPosInFile + count <= |stream.file.content| {
      DeliveredIsSlice(stream.file.content, stream.actualPosInFile, count);
    }
    var n := stream.Fread(ptr, 1, count);
    data := ptr[..n];
  }

  /** `count` bytes from `p` on, if they are there. */
  function Inside(content: seq<Byte>, p: nat, count: nat): seq<Byte> {
    if p + count <= |content| then content[p..p + count] else []
  }

  method PerformGet(stream: SoFile, count: nat, ghost p: Plain) returns (out: Out)
    requires Refines(stream, p) && Allowed(p, stream.openingMode, Get(count))
    modifies stream, stream.file, stream.buffer
    ensures Refines(stream, PlainStep(p, Get(count))) && out == PlainOut(p, Get(count))
  {
    var data := Fetch(stream, count);
    out := Bytes(data);
  }

  method PerformPut(stream: SoFile, data: seq<Byte>, ghost p: Plain) returns (out: Out)
    requires Refines(stream, p) && Allowed(p, stream.openingMode, Put(data))
    modifies stream, stream.file, stream.buffer
    ensures Refines(stream, PlainStep(p, Put(data))) && out == PlainOut(p, Put(data))
  {
    var ptr := new Byte[|data|](i requires 0 <= i < |data| => data[i]);
    assert ptr[..|data|] == data;
    var n := stream.Fwrite(ptr, 1, |data|);
    out := Count(n);
  }

  /** Every call on the stream does what the reference does. */
  method Perform(stream: SoFile, op: Op, ghost p: Plain) returns (out: Out)
    requires Refines(stream, p) && Allowed(p, stream.openingMode, op)
    modifies stream, stream.file, stream.buffer
    ensures Refines(stream, PlainStep(p, op)) && out == PlainOut(p, op)
  {
    match op {
      case Getc =>
        out := PerformGetc(stream, p);
      case Putc(c) =>
        var r := stream.PutChar(c);
        out := Char(r);
      case Flush =>
        var r := stream.Fflush();
        out := Result(r);
      case Seek(distance, whence) =>
        out := PerformSeek(stream, distance, whence, p);
      case Tell =>
        var at := stream.Ftell();
        out := Position(at);
      case Eof =>
        var eof := stream.Feof();
        out := Flag(eof);
      case Get(count) =>
        out := PerformGet(stream, count, p);
      case Put(data) =>
        out := PerformPut(stream, data, p);
    }
  }

  /** After `i` calls, from `p` on, the reference still does what it does from `start` on. */
  ghost predicate OnTrack(start: Plain, mode: Mode, ops: seq<Op>, i: nat, p: Plain, outs: seq<Out>) {
    && i <= |ops| && AllAllowed(p, mode, ops[i..])
    && outs + PlainOuts(p, ops[i..]) == PlainOuts(start, ops)
    && PlainEnd(p, ops[i..]) == PlainEnd(start, ops)
  }

  lemma TrackStep(start: Plain, mode: Mode, ops: seq<Op>, i: nat, p: Plain, outs: seq<Out>)
    requires i < |ops| && OnTrack(start, mode, ops, i, p, outs)
    ensures Allowed(p, mode, ops[i])
    ensures OnTrack(start, mode, ops, i + 1, PlainStep(p, ops[i]), outs + [PlainOut(p, ops[i])])
  {
    var rest := ops[i..];
    assert rest[0] == ops[i] && rest[1..] == ops[i + 1..];
    var out, later := PlainOut(p, ops[i]), PlainOuts(PlainStep(p, ops[i]), ops[i + 1..]);
    assert outs + ([out] + later) == outs + [out] + later;
  }

  method PerformNext(stream: SoFile, ops: seq<Op>, i: nat, outs: seq<Out>, ghost start: Plain, ghost p: Plain)
    returns (outs': seq<Out>, ghost p': Plain)
    requires Refines(stream, p) && i < |ops| && OnTrack(start, stream.openingMode, ops, i, p, outs)
    modifies stream, stream.file, stream.buffer
    ensures Refines(stream, p') && OnTrack(start, stream.openingMode, ops, i + 1, p', outs')
  {
    TrackStep(start, stream.openingMode, ops, i, p, outs);
    var out := Perform(stream, ops[i], p);
    outs', p' := outs + [out], PlainStep(p, ops[i]);
  }

  /** Any sequence of allowed calls between opening and closing returns what the reference returns
      and leaves on disk the reference's file. */
  method Session(file: RegularFile, mode: Mode, ops: seq<Op>) returns (outs: seq<Out>)
    requires AllAllowed(Opened(if mode.Truncates() then [] else file.content), mode, ops)
    modifies file
    ensures var start := Opened(if mode.Truncates() then [] else old(file.content));
            outs == PlainOuts(start, ops) && file.content == PlainEnd(start, ops).content
  {
    ghost var start := Opened(if mode.Truncates() then [] else file.content);
    var stream := new SoFile(file, mode);
    ghost var p := start;
    assert ops[0..] == ops;
    outs := [];
    for i := 0 to |ops|
      invariant stream.file == file && stream.openingMode == mode && fresh(stream) && fresh(stream.buffer)
      invariant Refines(stream, p) && OnTrack(start, mode, ops, i, p, outs)
    {
      outs, p := PerformNext(stream, ops, i, outs, start, p);
    }
    Close(stream, p);
  }

  method Close(stream: SoFile, ghost p: Plain)
    requires Refines(stream, p)
    modifies stream, stream.file, stream.buffer
    ensures stream.file.content == p.content
  {
    var r := stream.Fclose();
  }

  // ---- Write everything, read it back ----

  function Total(sizes: seq<nat>): nat {
    if sizes == [] then 0 else Total(sizes[..|sizes| - 1]) + sizes[|sizes| - 1]
  }

  /** Writing `n` bytes and closing takes exactly the `n / 4096` rounded up write calls, all but the last of
      a full buffer, and so_fread calls of any sizes that fit return the bytes in order. */
  method WriteThenRead(file: RegularFile, data: array<Byte>, sizes: seq<nat>) returns (back: seq<Byte>)
    requires data.Length > 0 && Total(sizes) <= data.Length
    modifies file
    ensures file.content == data[..]
    ensures |file.writeSizes| == |old(file.writeSizes)| + (data.Length + 4095) / 4096
    ensures FullWrites(old(file.writeSizes), file.writeSizes[..|file.writeSizes| - 1])
    ensures back == data[..Total(sizes)]
  {
    WriteAll(file, data);
    var reader := new SoFile(file, ModeR);
    back := ReadAll(reader, sizes);
  }

  method WriteAll(file: RegularFile, data: array<Byte>)
    requires data.Length > 0
    modifies file
    ensures file.content == data[..]
    ensures |file.writeSizes| == |old(file.writeSizes)| + (data.Length + 4095) / 4096
    ensures FullWrites(old(file.writeSizes), file.writeSizes[..|file.writeSizes| - 1])
  {
    var writer := new SoFile(file, ModeW);
    var n := writer.Fwrite(data, 1, data.Length);
    ghost var sizes := file.writeSizes;
    assert data[..data.Length] == data[..];
    OverlayAtEnd([], data[..]);
    var ok := writer.Fclose();
    assert file.writeSizes[..|file.writeSizes| - 1] == sizes;
  }

  /** One so_fread of a series. */
  method ReadNext(reader: SoFile, back: seq<Byte>, size: nat) returns (more: seq<Byte>)
    requires reader.Valid() && !reader.errorFile && reader.openingMode == ModeR && !reader.Writing()
    requires reader.actualPosInFile + size <= |reader.file.content|
    requires back == reader.file.content[..reader.actualPosInFile]
    modifies reader, reader.file`offset, reader.buffer
    ensures reader.Valid() && !reader.errorFile && !reader.Writing()
    ensures reader.actualPosInFile == old(reader.actualPosInFile) + size
    ensures more == reader.file.content[..reader.actualPosInFile]
  {
    var data := Fetch(reader, size);
    more := back + data;
  }

  method ReadAll(reader: SoFile, sizes: seq<nat>) returns (back: seq<Byte>)
    requires reader.Valid() && !reader.errorFile && reader.openingMode == ModeR && reader.lastOperation == NoOperation
    requires reader.actualPosInFile == 0 && Total(sizes) <= |reader.file.content|
    modifies reader, reader.file`offset, reader.buffer
    ensures back == reader.file.content[..Total(sizes)]
  {
    back := [];
    var i := 0;
    while i < |sizes|
      invariant 0 <= i <= |sizes|
      invariant reader.Valid() && !reader.Writing() && !reader.errorFile
      invariant reader.actualPosInFile == Total(sizes[..i]) <= Total(sizes)
      invariant back == reader.file.content[..Total(sizes[..i])]
    {
      assert sizes[..i + 1][..i] == sizes[..i];
      TotalMono(sizes, i + 1);
      back := ReadNext(reader, back, sizes[i]);
      i := i + 1;
    }
    assert sizes[..i] == sizes;
  }

  lemma {:induction false} TotalMono(sizes: seq<nat>, i: nat)
    requires i <= |sizes|
    ensures Total(sizes[..i]) <= Total(sizes)
    decreases |sizes|
  {
    if i < |sizes| {
      TotalMono(sizes[..|sizes| - 1], i);
      assert sizes[..|sizes| - 1][..i] == sizes[..i];
    } else {
      assert sizes[..i] == sizes;
    }
  }
}
