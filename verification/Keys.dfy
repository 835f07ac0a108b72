/** The two key types and their in-place transforms: meshtassy-net/src/key.rs. */
module Keys {
  import opened Bytes
  import opened Options
  import opened CounterMode

  datatype KeyError = InvalidKeySize | EmptyData

  datatype Result<+T> = Ok(value: T) | Err(error: KeyError)

  /** AES under both key sizes, left uninterpreted. */
  datatype Aes = Aes(aes128: (Block, Block) -> Block, aes256: (Key32, Block) -> Block)

  const DEFAULT_KEY: Block := [
    0xd4, 0xf1, 0xbb, 0x3a, 0x20, 0x29, 0x07, 0x59,
    0xf0, 0xbc, 0xff, 0xab, 0xcf, 0x4e, 0x69, 0x01]

  datatype MeshKey =
    | MeshKeyEmpty(key16: Block)
    | MeshKey8bit(key16: Block)
    | MeshKey128bit(key16: Block)
    | MeshKey256bit(key32: Key32)
  {
    function AsBytes(): seq<byte> {
      if MeshKey256bit? then key32 else key16
    }

    function Cipher(aes: Aes): BlockFn {
      if MeshKey256bit? then (b: Block) => aes.aes256(key32, b) else (b: Block) => aes.aes128(key16, b)
    }

    /** `MeshKey::transform` on the sub-slice data[lo..hi]. */
    method Transform(aes: Aes, data: array<byte>, lo: nat, hi: nat, nonce: Block) returns (r: Result<()>)
      requires lo <= hi <= data.Length
      modifies data
      ensures lo == hi ==> r == Err(EmptyData) && data[..] == old(data[..])
      ensures lo < hi ==>
                && r == Ok(())
                && data[..] == old(data[..lo]) + Ctr(Cipher(aes), nonce, old(data[lo..hi])) + old(data[hi..])
    {
      if lo == hi {
        return Err(EmptyData);
      }
      match this
      case MeshKey256bit(key) =>
        ApplyKeystream(Cipher(aes), nonce, data, lo, hi);
        return Ok(());
      case _ =>
        ApplyKeystream(Cipher(aes), nonce, data, lo, hi);
        return Ok(());
    }
  }

  datatype ChannelKey = AES128(key16: Block) | AES256(key32: Key32)
  {
    function AsBytes(): seq<byte> {
      if AES256? then key32 else key16
    }

    function Cipher(aes: Aes): BlockFn {
      match this
      case AES128(key) => (b: Block) => aes.aes128(key, b)
      case AES256(key) => (b: Block) => aes.aes256(key, b)
    }

    /** `ChannelKey::transform` on the sub-slice data[lo..hi]. */
    method Transform(aes: Aes, data: array<byte>, lo: nat, hi: nat, iv: Block) returns (r: Result<()>)
      requires lo <= hi <= data.Length
      modifies data
      ensures lo == hi ==> r == Err(EmptyData) && data[..] == old(data[..])
      ensures lo < hi ==>
                && r == Ok(())
                && data[..] == old(data[..lo]) + Ctr(Cipher(aes), iv, old(data[lo..hi])) + old(data[hi..])
    {
      if lo == hi {
        return Err(EmptyData);
      }
      ApplyKeystream(Cipher(aes), iv, data, lo, hi);
      return Ok(());
    }
  }

  /** `MeshKey::new`. */
  function NewMeshKey(key: seq<byte>): Result<MeshKey> {
    if |key| == 0 then Ok(MeshKeyEmpty(DEFAULT_KEY))
    else if |key| == 1 then Ok(MeshKey8bit(DEFAULT_KEY[15 := key[0]]))
    else if |key| == 16 then Ok(MeshKey128bit(key))
    else if |key| == 32 then Ok(MeshKey256bit(key))
    else Err(InvalidKeySize)
  }

  /** The lengths for which `ChannelKey::from_bytes` does not index or copy out of range. */
  predicate UsableLength(key: seq<byte>, keyLen: nat) {
    (keyLen == 1 ==> |key| >= 1) && (keyLen == 16 ==> |key| == 16) && (keyLen == 32 ==> |key| == 32)
  }

  /** `ChannelKey::from_bytes`. */
  function ChannelKeyFromBytes(key: seq<byte>, keyLen: nat): Option<ChannelKey>
    requires UsableLength(key, keyLen)
  {
    if keyLen == 0 then Some(AES128(DEFAULT_KEY))
    else if keyLen == 1 then Some(AES128(DEFAULT_KEY[15 := key[0]]))
    else if keyLen == 16 then Some(AES128(key))
    else if keyLen == 32 then Some(AES256(key))
    else None
  }

  /** What a raw key of each length becomes: the default key, the default key with its last byte replaced,
      or the key itself; and which cipher it selects, under those bytes. */
  lemma KeyExpansion(key: seq<byte>, keyLen: nat, aes: Aes)
    requires UsableLength(key, keyLen)
    ensures ChannelKeyFromBytes(key, keyLen).Some? <==> keyLen == 0 || keyLen == 1 || keyLen == 16 || keyLen == 32
    ensures ChannelKeyFromBytes(key, keyLen).Some? ==>
              var k := ChannelKeyFromBytes(key, keyLen).value;
              var bytes := k.AsBytes();
              && (keyLen == 16 || keyLen == 32 ==> bytes == key)
              && (keyLen < 16 ==>
                    && bytes[..15] == [0xd4, 0xf1, 0xbb, 0x3a, 0x20, 0x29, 0x07, 0x59,
                                       0xf0, 0xbc, 0xff, 0xab, 0xcf, 0x4e, 0x69]
                    && bytes[15] == if keyLen == 0 then 0x01 else key[0])
              && |bytes| == (if keyLen == 32 then 32 else 16)
              && (forall b: Block ::
                    k.Cipher(aes)(b) == if keyLen == 32 then aes.aes256(bytes, b) else aes.aes128(bytes, b))
  {
  }

  /** Both key types accept the same raw keys, expand them to the same bytes, and transform alike. */
  lemma KeyTypesAgree(key: seq<byte>, aes: Aes)
    ensures NewMeshKey(key).Ok? <==> |key| in {0, 1, 16, 32}
    ensures ChannelKeyFromBytes(key, |key|).Some? <==> NewMeshKey(key).Ok?
    ensures NewMeshKey(key).Ok? ==>
              var mesh, chan := NewMeshKey(key).value, ChannelKeyFromBytes(key, |key|).value;
              && mesh.AsBytes() == chan.AsBytes()
              && (|mesh.AsBytes()| == 32 <==> |key| == 32)
              && (forall nonce: Block, data: seq<byte> ::
                    Ctr(mesh.Cipher(aes), nonce, data) == Ctr(chan.Cipher(aes), nonce, data))
  {
    if NewMeshKey(key).Ok? {
      var mesh, chan := NewMeshKey(key).value, ChannelKeyFromBytes(key, |key|).value;
      forall nonce: Block, data: seq<byte>
        ensures Ctr(mesh.Cipher(aes), nonce, data) == Ctr(chan.Cipher(aes), nonce, data)
      {
        SameBlocksSameCtr(mesh.Cipher(aes), chan.Cipher(aes), nonce, data);
      }
    }
  }

  lemma {:induction false} SameBlocksSameCtr(f: BlockFn, g: BlockFn, t: Block, data: seq<byte>)
    requires forall b: Block :: f(b) == g(b)
    ensures Ctr(f, t, data) == Ctr(g, t, data)
    decreases |data|
  {
    if |data| > 16 {
      SameBlocksSameCtr(f, g, Increment(t), data[16..]);
    }
  }

  /** Transforming twice with the same key and nonce restores the data, for either key type. */
  lemma TransformsInvolutive(mesh: MeshKey, chan: ChannelKey, aes: Aes, nonce: Block, data: seq<byte>)
    ensures Ctr(mesh.Cipher(aes), nonce, Ctr(mesh.Cipher(aes), nonce, data)) == data
    ensures Ctr(chan.Cipher(aes), nonce, Ctr(chan.Cipher(aes), nonce, data)) == data
  {
    CtrInvolutive(mesh.Cipher(aes), nonce, data);
    CtrInvolutive(chan.Cipher(aes), nonce, data);
  }
}
