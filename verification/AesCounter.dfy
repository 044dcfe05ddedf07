/** AES in counter mode: a cipher context made from a key that carries its salt behind it. */
module AesCounter {
  import opened Status
  import opened Bytes
  import opened CounterMode
  import Aes
  import AesSpec

  const SALT: nat := 14

  /** The key lengths aes_icm_alloc accepts: an AES key of any size and the salt. */
  predicate Allocates(n: nat) {
    n == 30 || n == 38 || n == 46
  }

  /** Those for which there is a key expansion. */
  predicate Expands(n: nat) {
    n == 30 || n == 46
  }

  /** The context aes_icm_context_init stands for. */
  ghost predicate Initial(sb: AesSpec.SBox, key: seq<bv8>, c: Icm)
    requires Expands(|key|)
    reads c
  {
    var n := |key| - SALT;
    && c.Valid() && c.enc == Aes.CipherOf(sb, key[..n]) && c.offset == key[n..] + [0, 0]
    && c.Contents() == State(key[n..] + [0, 0], c.keystreamBuffer, 0)
  }

  /**
   aes_icm_alloc and aes_icm_context_init.  Other lengths are refused before anything is
   allocated, 192-bit keys by the expansion.
   */
  method NewContext(sb: AesSpec.SBox, key: seq<bv8>)
    returns (status: Status, taken: bool, c: Icm?, expanded: Aes.ExpandedKey)
    ensures taken == Allocates(|key|)
    ensures status == if Expands(|key|) then Ok else BadParam
    ensures status == Ok ==> c != null && fresh(c) && Initial(sb, key, c)
    ensures status == Ok ==> expanded.sb == sb && expanded.HoldsKeys(key[..|key| - SALT])
    ensures status != Ok ==> c == null
  {
    hide Aes.CipherOf, Aes.RoundKey;
    expanded := new Aes.ExpandedKey(sb);
    if |key| != 30 && |key| != 38 && |key| != 46 {
      return BadParam, false, null, expanded;
    }
    var n := |key| - SALT;
    status := expanded.ExpandEncryption(key[..n]);
    if status != Ok {
      return status, true, null, expanded;
    }
    c := new Icm(Aes.CipherOf(sb, key[..n]), key[n..]);
    taken := true;
  }

  /** The block that Icm.Advance takes from its cipher function, computed in place under the expanded key. */
  method KeystreamBlock(c: Icm, expanded: Aes.ExpandedKey, ghost key: seq<bv8>, buffer: array<bv8>)
    requires Expands(|key|) && c.enc == Aes.CipherOf(expanded.sb, key[..|key| - SALT])
    requires expanded.HoldsKeys(key[..|key| - SALT]) && buffer.Length == 16
    modifies buffer
    ensures buffer[..] == c.enc(c.counter)
  {
    hide Aes.CipherOf, Aes.RoundKey;
    for i := 0 to 16
      invariant forall k :: 0 <= k < i ==> buffer[k] == c.counter[k]
    {
      buffer[i] := c.counter[i];
    }
    assert buffer[..] == c.counter;
    Aes.EncryptUnder(expanded, key[..|key| - SALT], buffer);
  }
}
