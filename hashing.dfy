/** The incremental Keccak-256 hasher as the search engine uses it
    (`Keccak::new_keccak256`, `update`, `clone`, `finalize`). The permutation
    itself is not modelled: the digest function is a parameter, and the
    hasher's state is the sequence of bytes absorbed so far. */
module Hashing {
  import opened Hex

  /** A 32-byte digest. */
  type Digest = s: seq<byte> | |s| == 32 witness seq(32, _ => 0 as byte)

  /** Keccak-256 over a whole message. */
  type Hasher = seq<byte> -> Digest

  class Keccak {
    /** The digest function this state finalizes with. */
    const hasher: Hasher
    /** Everything given to `update` so far, in order. */
    var absorbed: seq<byte>

    /** `Keccak::new_keccak256()`. */
    constructor (hasher: Hasher)
      ensures this.hasher == hasher && absorbed == []
    {
      this.hasher := hasher;
      absorbed := [];
    }

    /** `update`: absorbs `data` after what was absorbed before. */
    method Update(data: seq<byte>)
      modifies this
      ensures absorbed == old(absorbed) + data
    {
      absorbed := absorbed + data;
    }

    /** `clone`: an independent state with the same absorbed bytes. */
    method Clone() returns (copy: Keccak)
      ensures fresh(copy)
      ensures copy.hasher == hasher && copy.absorbed == absorbed
    {
      copy := new Keccak(hasher);
      copy.absorbed := absorbed;
    }

    /** `finalize`: the digest of everything absorbed. */
    method Finalize() returns (digest: Digest)
      ensures digest == hasher(absorbed)
    {
      digest := hasher(absorbed);
    }
  }
}
