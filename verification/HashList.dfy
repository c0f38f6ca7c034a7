/** The list of chunk checksums, kept as one string of 32-byte entries. */
module HashList {
  import opened ByteStrings
  import opened Results
  import opened CbcCipher
  import opened ChunkEncryption

  datatype HashError = InvalidFileTopHash | InvalidHashSize | HashIndexOutOfBounds

  class HmacList {
    const crypto: CryptoService
    var topHashKey: Bytes
    var topHash: Option<Bytes>
    var size: nat
    var hashes: Bytes

    ghost predicate Valid()
      reads this
    {
      && |hashes| == Start(size, HMAC_SIZE)
      && (topHash.Some? ==> topHash.value == crypto.hmacSha256(topHashKey, hashes))
    }

    /** The list of a file without chunks; `Sync` loads the real one. */
    constructor (crypto: CryptoService)
      ensures Valid() && this.crypto == crypto && hashes == []
    {
      this.crypto := crypto;
      topHashKey, topHash, size, hashes := [], None, 0, [];
    }

    /** Accepts a list only if it matches the given top hash; otherwise nothing changes. */
    method Sync(topHashKey: Bytes, topHash: Bytes, hashes: Bytes) returns (r: Result<(), HashError>)
      modifies this
      ensures r == if crypto.hmacSha256(topHashKey, hashes) != topHash then Err(InvalidFileTopHash)
                   else if |hashes| % HMAC_SIZE != 0 then Err(InvalidHashSize) else Ok(())
      ensures r.Err? ==> unchanged(this)
      ensures r.Ok? ==> Valid() && this.hashes == hashes && this.topHashKey == topHashKey
    {
      var tmp := crypto.hmacSha256(topHashKey, hashes);
      if tmp != topHash {
        return Err(InvalidFileTopHash);
      }
      if |hashes| % HMAC_SIZE != 0 {
        return Err(InvalidHashSize);
      }
      this.topHashKey, this.hashes, this.topHash, size := topHashKey, hashes, Some(tmp), |hashes| / HMAC_SIZE;
      StartIsProduct(size, HMAC_SIZE);
      r := Ok(());
    }

    method SetAll(hashes: Bytes) returns (r: Result<(), HashError>)
      modifies this
      ensures r.Ok? <==> |hashes| % HMAC_SIZE == 0
      ensures r.Err? ==> unchanged(this)
      ensures r.Ok? ==> Valid() && this.hashes == hashes && topHashKey == old(topHashKey)
    {
      if |hashes| % HMAC_SIZE != 0 {
        return Err(InvalidHashSize);
      }
      this.hashes, topHash, size := hashes, None, |hashes| / HMAC_SIZE;
      StartIsProduct(size, HMAC_SIZE);
      r := Ok(());
    }

    /** Replaces one entry, or appends it directly after the last; entries beyond it are dropped if
        `truncate`. This is the same patch that the server applies to its copy. */
    method Set(chunkIndex: nat, hash: Bytes, truncate: bool) returns (r: Result<(), HashError>)
      requires Valid()
      modifies this
      ensures Valid() && topHashKey == old(topHashKey)
      ensures r == if |hash| != HMAC_SIZE then Err(InvalidHashSize)
                   else if chunkIndex > old(size) then Err(HashIndexOutOfBounds) else Ok(())
      ensures r.Err? ==> unchanged(this)
      ensures r.Ok? ==> Start(chunkIndex, HMAC_SIZE) <= |old(hashes)|
                        && hashes == Patch(old(hashes), Start(chunkIndex, HMAC_SIZE), hash, truncate)
                        && size == if truncate then chunkIndex + 1 else Max(old(size), chunkIndex + 1)
    {
      if |hash| != HMAC_SIZE {
        return Err(InvalidHashSize);
      }
      StartIsProduct(chunkIndex, HMAC_SIZE);
      StartIsProduct(size, HMAC_SIZE);
      if chunkIndex < size {
        var offset := chunkIndex * HMAC_SIZE;
        hashes := hashes[..offset] + hash + hashes[offset + HMAC_SIZE..];
        if truncate {
          size := chunkIndex + 1;
          hashes := hashes[..offset + HMAC_SIZE];
        }
        topHash := None;
      } else if chunkIndex == size {
        size := size + 1;
        hashes := hashes + hash;
        topHash := None;
      } else {
        return Err(HashIndexOutOfBounds);
      }
      StartIsProduct(size, HMAC_SIZE);
      r := Ok(());
    }

    /** The entry of a chunk. Index `size` is let through and gives the empty string. */
    method GetHash(chunkIndex: nat) returns (r: Result<Bytes, HashError>)
      requires Valid()
      ensures r == if chunkIndex > size then Err(HashIndexOutOfBounds) else Ok(Slice(hashes, HMAC_SIZE, chunkIndex))
    {
      if chunkIndex > size {
        return Err(HashIndexOutOfBounds);
      }
      StartIsProduct(chunkIndex, HMAC_SIZE);
      StartIsProduct(size, HMAC_SIZE);
      var offset := chunkIndex * HMAC_SIZE;
      r := Ok(hashes[offset..Min(offset + HMAC_SIZE, |hashes|)]);
    }

    method GetTopHash() returns (r: Bytes)
      requires Valid()
      modifies this`topHash
      ensures Valid() && r == crypto.hmacSha256(topHashKey, hashes)
    {
      if topHash.None? {
        topHash := Some(crypto.hmacSha256(topHashKey, hashes));
      }
      r := topHash.value;
    }
  }
}
