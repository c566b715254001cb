/** Positional, read-only access to an image. */
module Evidence {
  import opened Machine
  import opened Wrappers

  datatype ReadError = ReadError

  // One request made of the evidence.
  datatype Span = Span(offset: nat, size: nat)

  predicate Inside(s: Span, low: nat, high: nat) {
    low <= s.offset && s.offset + s.size <= high
  }

  // The bytes of a range; zeros past the end of the image, which no
  // successful read ever shows.
  function Slice(image: seq<u8>, offset: nat, size: nat): (s: seq<u8>)
    ensures |s| == size
    ensures offset + size <= |image| ==> s == image[offset..offset + size]
  {
    seq(size, i requires 0 <= i < size => if offset + i < |image| then image[offset + i] else 0)
  }

  /** Evidence of fixed content. A reliable reader serves every range the
      image holds; any other may fail any read, whenever it likes. */
  class EvidenceReader {
    const image: seq<u8>
    const reliable: bool

    // Every range asked for, whether or not it was served.
    ghost var requests: set<Span>

    constructor (image: seq<u8>, reliable: bool)
      ensures this.image == image && this.reliable == reliable && requests == {}
    {
      this.image := image;
      this.reliable := reliable;
      requests := {};
    }

    method ReadExactAt(offset: u64, size: nat) returns (r: Result<seq<u8>, ReadError>)
      modifies this
      ensures requests == old(requests) + {Span(offset, size)}
      ensures r.Success? ==> offset + size <= |image| && r.value == Slice(image, offset, size)
      ensures reliable && offset + size <= |image| ==> r.Success?
    {
      requests := requests + {Span(offset, size)};
      var fault: bool := *;
      if offset + size <= |image| && (reliable || !fault) {
        r := Success(image[offset..offset + size]);
      } else {
        r := Failure(ReadError);
      }
    }
  }
}
