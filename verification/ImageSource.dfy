// The bytes an image is decoded from.
module ImageSource {
  import opened Words

  // Behind the end of the input every byte reads as zero.
  function Get8(input: seq<byte>, pos: nat): byte { if pos < |input| then input[pos] else 0 }

  function Advance(input: seq<byte>, pos: nat, n: nat): nat { if pos + n <= |input| then pos + n else Max(pos, |input|) }

  // The next n bytes.
  function Taken(input: seq<byte>, pos: nat, n: nat): (s: seq<byte>)
    ensures |s| == n && forall z :: 0 <= z < n ==> s[z] == Get8(input, pos + z)
  {
    seq<byte>(n, z requires 0 <= z < n => Get8(input, pos + z))
  }

  class Source {
    const bytes: seq<byte>
    var pos: nat

    constructor (input: seq<byte>, at: nat)
      ensures bytes == input && pos == at
    {
      bytes, pos := input, at;
    }

    // The next byte, or 0 at the end.
    method Get() returns (b: byte)
      modifies this
      ensures b == Get8(bytes, old(pos)) && pos == Advance(bytes, old(pos), 1)
    {
      b := 0;
      if pos < |bytes| {
        b := bytes[pos];
        pos := pos + 1;
      }
    }
  }

  ghost predicate StandsAt(bytes: seq<byte>, input: seq<byte>, pos: nat) {
    pos + |bytes| <= |input| && input[pos..pos + |bytes|] == bytes
  }

  lemma StandsBoth(a: seq<byte>, b: seq<byte>, input: seq<byte>, pos: nat)
    requires StandsAt(a + b, input, pos)
    ensures StandsAt(a, input, pos) && StandsAt(b, input, pos + |a|)
  {
    var s := input[pos..pos + |a + b|];
    assert a == s[..|a|] && b == s[|a|..];
  }

  lemma BytesAt(bytes: seq<byte>, input: seq<byte>, pos: nat)
    requires StandsAt(bytes, input, pos)
    ensures forall i :: 0 <= i < |bytes| ==> Get8(input, pos + i) == bytes[i]
  {
    var s := input[pos..pos + |bytes|];
    assert forall i :: 0 <= i < |bytes| ==> s[i] == input[pos + i];
  }
}
