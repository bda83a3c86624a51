/** The values the protocol exchanges.

    The hash, the key-derivation function and the authenticated cipher are free
    constructors (the symbolic model of evaluation/formal_verification/common.pvl),
    so their injectivity is a fact about the datatypes below. */
module Terms {
  newtype byte = x: int | 0 <= x < 256

  datatype Option<+T> = None | Some(value: T)

  /** An identity, as the UTF-8 bytes of its name. */
  datatype Peer = Peer(id: seq<byte>)

  datatype Nonce = Nonce(bytes: seq<byte>)

  /** A pseudonym: H2(lambda || t), or 32 bytes that are no such value. */
  datatype Pid = H2(lam: nat, epoch: nat) | RawPid(tag: int)

  /** A pairwise root KDF(lambda_device || lambda_server), or some other key. */
  datatype Key = Root(lamDevice: nat, lamServer: nat) | OtherKey(tag: int)

  /** K = KDF(k* || N_i || N_j || t). */
  datatype SessionKey = Session(root: Key, ni: Nonce, nj: Nonce, epoch: nat)

  /** M1 is sealed with empty associated data, M2 with PID || N_i. */
  datatype Aad = NoAad | Bound(pid: Pid, ni: Nonce)

  datatype Plain =
    | Plain1(pid: Pid, ni: Nonce, epoch: nat)
    | Plain2(nj: Nonce, epoch: nat)

  /** Ciphertext and tag together. */
  datatype Body = Sealed(key: Key, iv: nat, plain: Plain, aad: Aad) | Junk(tag: int)

  datatype Message1 = Message1(pid: Pid, iv: nat, body: Body)

  datatype Message2 = Message2(serverId: Peer, iv: nat, body: Body)

  /** Opens exactly what was sealed with the same key, IV and associated data. */
  function Decrypt(key: Key, iv: nat, body: Body, aad: Aad): Option<Plain> {
    if body.Sealed? && body.key == key && body.iv == iv && body.aad == aad then Some(body.plain) else None
  }
}
