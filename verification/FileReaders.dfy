/** The two read_next_frame loops over a file cursor and a frame buffer. */
module FileReaders {
  import opened Common
  import opened Rtp
  import AnnexB
  import Adts

  lemma ReadUnfolds(s: AnnexB.Input, max: nat, i: nat)
    requires max >= 1 && !s.eof
    requires i == AnnexB.FirstCode(s.rest[..Min(max, |s.rest|)], Min(3, Min(max, |s.rest|)))
    ensures var n, eof := Min(max, |s.rest|), |s.rest| < max;
            AnnexB.ReadFrame(s, max) ==
            if i < n then (AnnexB.Frame(s.rest[..n][..i]), AnnexB.Input(if eof then [] else s.rest[i..], eof))
            else AnnexB.ReadFrame(AnnexB.Input(s.rest[n..], eof), max)
  {
    hide AnnexB.FirstCode, AnnexB.CodeAt;
  }

  lemma ReadAtEnd(s: AnnexB.Input, max: nat)
    requires max >= 1 && s.eof
    ensures AnnexB.ReadFrame(s, max) == (AnnexB.End, s)
  {}

  class H264Reader {
    const file: seq<byte>
    const max: nat
    const frameBuf: array<byte>
    var pos: nat
    var eof: bool

    ghost predicate Valid()
      reads this
    {
      max >= 1 && frameBuf.Length == max + 10 && pos <= |file|
    }

    ghost function State(): AnnexB.Input
      requires pos <= |file|
      reads this
    {
      AnnexB.Input(file[pos..], eof)
    }

    constructor (file: seq<byte>, max: nat)
      requires max >= 1
      ensures Valid() && fresh(frameBuf) && this.file == file && this.max == max
      ensures State() == AnnexB.Input(file, false)
    {
      this.file, this.max := file, max;
      frameBuf := new byte[max + 10](_ => 0);
      pos, eof := 0, false;
    }

    // The inner loop: where the next frame starts in a window of readBytes bytes.
    method Scan(readBytes: nat) returns (i: nat)
      requires readBytes <= frameBuf.Length
      ensures i == AnnexB.FirstCode(frameBuf[..readBytes], Min(3, readBytes))
    {
      ghost var w := frameBuf[..readBytes];
      i := Min(3, readBytes);
      while i < readBytes
        invariant Min(3, readBytes) <= i <= readBytes
        invariant forall k :: Min(3, readBytes) <= k < i ==> !AnnexB.CodeAt(w, k)
      {
        var startCode :=
          || (i + 2 < readBytes && frameBuf[i] == 0 && frameBuf[i + 1] == 0 && frameBuf[i + 2] == 1)
          || (i + 3 < readBytes && frameBuf[i] == 0 && frameBuf[i + 1] == 0 && frameBuf[i + 2] == 0
              && frameBuf[i + 3] == 1);
        assert startCode == AnnexB.CodeAt(w, i);
        if startCode { return i; }
        i := i + 1;
      }
    }

    /** Leaves the next frame in the front of frameBuf and answers its size, or answers -1. */
    method ReadNextFrame() returns (n: int)
      requires Valid()
      modifies this, frameBuf
      ensures Valid()
      ensures var (r, s') := AnnexB.ReadFrame(old(State()), max);
              match r
              case Frame(data) => n == |data| <= frameBuf.Length && frameBuf[..n] == data && State() == s'
              case End => n == -1 && eof
    {
      hide AnnexB.FirstCode, AnnexB.CodeAt, AnnexB.ReadFrame;
      while !eof
        invariant Valid()
        invariant AnnexB.ReadFrame(State(), max) == AnnexB.ReadFrame(old(State()), max)
        decreases |file| - pos + if eof then 0 else 1
      {
        ghost var s := State();
        var readBytes := Min(max, |file| - pos);
        ghost var w := s.rest[..readBytes];
        assert w == file[pos..pos + readBytes];
        Put(frameBuf, 0, file[pos..pos + readBytes]);
        assert frameBuf[..readBytes] == w;
        pos := pos + readBytes;
        eof := readBytes < max;
        var i := Scan(readBytes);
        ReadUnfolds(s, max, i);
        if i < readBytes {
          if !eof {
            pos := pos - (readBytes - i);
          }
          assert State().rest == if eof then [] else s.rest[i..];
          assert frameBuf[..i] == w[..i];
          return i;
        }
        assert State() == AnnexB.Input(s.rest[readBytes..], eof);
      }
      ReadAtEnd(State(), max);
      return -1;
    }
  }

  class AacReader {
    const file: seq<byte>
    const frameBuf: array<byte>
    var pos: nat
    var failed: bool

    ghost predicate Valid()
      reads this
    {
      frameBuf.Length >= 8192 && pos <= |file|
    }

    ghost function State(): Adts.Input
      requires pos <= |file|
      reads this
    {
      Adts.Input(file[pos..], failed)
    }

    constructor (file: seq<byte>, max: nat)
      requires max >= 8192
      ensures Valid() && fresh(frameBuf) && this.file == file && State() == Adts.Input(file, false)
    {
      this.file := file;
      frameBuf := new byte[max + 10](_ => 0);
      pos, failed := 0, false;
    }

    // std::ifstream::read: the bytes obtained; a short or refused read leaves the stream failed.
    method Read(size: int) returns (data: seq<byte>)
      requires Valid()
      modifies `pos, `failed
      ensures Valid()
      ensures data == if old(failed) || size < 0 then []
                      else old(file[pos..])[..Min(size, |old(file[pos..])|)]
      ensures file[pos..] == old(file[pos..])[|data|..]
      ensures failed == (old(failed) || |data| != size)
    {
      if failed || size < 0 {
        failed := true;
        return [];
      }
      var n := Min(size, |file| - pos);
      data := file[pos..pos + n];
      pos := pos + n;
      failed := n != size;
    }

    method ReadNextFrame() returns (n: int)
      requires Valid()
      modifies this, frameBuf
      ensures Valid()
      ensures var (r, s') := Adts.ReadFrame(old(State()));
              && State() == s'
              && match r
                 case Frame(data) => n == |data| <= frameBuf.Length && frameBuf[..n] == data
                 case Error => n == -1
    {
      ghost var s := State();
      var header := Read(Adts.ADTS_HEADER);
      if |header| != Adts.ADTS_HEADER {
        return -1;
      } else if header[0] != 0xFF || header[1] / 16 != 15 {
        return -1;
      }
      var frameSize: int :=
        (header[3] % 4 as int) * 2048 + (header[4] as int) * 8 + header[5] as int / 32 - Adts.ADTS_HEADER;
      assert frameSize == Adts.FrameLength(s.rest) - Adts.ADTS_HEADER < 8192;
      var data := Read(frameSize);
      Put(frameBuf, 0, data);
      if |data| != frameSize { return -1; }
      return frameSize;
    }
  }
}
