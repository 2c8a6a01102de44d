/** The serial line behind a FILE handle: the bytes the device will still
    send and the chunks handed to fwrite, and the request sender shared by
    tsip::send_request_msg and gps_api::send_gps_msg. */
module Serial {
  import opened Protocol
  import opened Requests

  datatype Option<T> = None | Some(value: T)

  class Port {
    /** What getc will return from now on; running out is explicit. */
    var input: seq<uint8>
    /** One entry per fwrite: the part of its buffer that went out. */
    var written: seq<seq<uint8>>

    constructor(input: seq<uint8>)
      ensures this.input == input && written == []
    {
      this.input := input;
      written := [];
    }

    /** getc: the next byte, or None once the device has nothing more. */
    method Read() returns (c: Option<uint8>)
      modifies this
      ensures old(input) == [] ==> c == None && input == []
      ensures old(input) != [] ==> c == Some(old(input)[0]) && input == old(input)[1..]
      ensures written == old(written)
    {
      if input == [] {
        c := None;
      } else {
        c := Some(input[0]);
        input := input[1..];
      }
    }

    /** fwrite: some prefix of the bytes goes out (possibly none, on a port
        opened read-only); the count is returned. */
    method Write(bytes: seq<uint8>) returns (n: int)
      modifies this
      ensures 0 <= n <= |bytes| && written == old(written) + [bytes[..n]]
      ensures input == old(input)
    {
      n :| 0 <= n <= |bytes|;
      written := written + [bytes[..n]];
    }
  }

  /** One fwrite happened, and what went out is a prefix of `bytes`. */
  ghost predicate WroteOnce(before: seq<seq<uint8>>, after: seq<seq<uint8>>, bytes: seq<uint8>) {
    |after| == |before| + 1 && after[..|before|] == before && after[|before|] <= bytes
  }

  /** Two fwrites happened, each sending a prefix of its own bytes. */
  ghost predicate WroteTwice(before: seq<seq<uint8>>, after: seq<seq<uint8>>, first: seq<uint8>, second: seq<uint8>) {
    |after| == |before| + 2 && after[..|before|] == before
    && after[|before|] <= first && after[|before| + 1] <= second
  }

  lemma WroteOnceThenOnce(a: seq<seq<uint8>>, b: seq<seq<uint8>>, c: seq<seq<uint8>>, first: seq<uint8>, second: seq<uint8>)
    requires WroteOnce(a, b, first) && WroteOnce(b, c, second)
    ensures WroteTwice(a, c, first, second)
  {
    assert c[..|a|] == c[..|b|][..|a|];
  }

  /** The sending half of send_request_msg and send_gps_msg: fill buffer[]
      with DLE, the first n command bytes and DLE ETX, then fwrite its first
      n + 2 bytes; the count fwrite reports is returned. */
  method SendFrame(dst: Port, data: seq<uint8>, n: int) returns (count: int)
    requires 0 <= n <= |data| && n + 2 < 256
    modifies dst
    ensures dst.input == old(dst.input)
    ensures WroteOnce(old(dst.written), dst.written, RequestBytes(data, n))
    ensures count == |dst.written[|old(dst.written)|]|
  {
    var buffer := new uint8[256];
    buffer[0] := DLE;
    var x := 1;
    for j := 0 to n
      modifies buffer
      invariant x == j + 1
      invariant buffer[..x] == [DLE] + data[..j]
    {
      buffer[x] := data[j];
      assert buffer[..x + 1] == buffer[..x] + [data[j]];
      assert data[..j + 1] == data[..j] + [data[j]];
      x := x + 1;
    }
    buffer[x] := DLE;
    buffer[x + 1] := ETX;
    assert buffer[..x + 1] == [DLE] + data[..n] + [DLE];
    count := dst.Write(buffer[..x + 1]);
  }
}
