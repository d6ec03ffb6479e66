/** A byte array that is filled from the front: growing in chunks, or of fixed size. */
module ByteArray {
  import opened Bytes

  class ByteArray {
    const chunkSize: nat
    const dynSize: bool
    var data: array<Byte>
    var capacity: nat
    var currPos: nat

    ghost predicate Valid()
      reads this
    {
      currPos <= capacity <= data.Length && (dynSize ==> chunkSize > 0)
    }

    ghost function Contents(): (s: seq<Byte>)
      requires Valid()
      reads this, data
      ensures |s| == currPos
    {
      data[..currPos]
    }

    constructor (initialLength: nat, chunkSize: nat)
      requires chunkSize > 0
      ensures Valid() && Contents() == [] && dynSize && this.chunkSize == chunkSize && fresh(data)
      ensures capacity == if initialLength == 0 then 0 else AlignLength(initialLength)
    {
      this.chunkSize, dynSize := chunkSize, true;
      data, capacity, currPos := new Byte[0], 0, 0;
      new;
      if initialLength != 0 {
        var ok := Resize(initialLength);
      }
    }

    constructor Fixed(size: nat)
      ensures Valid() && Contents() == [] && !dynSize && capacity == size && fresh(data)
    {
      chunkSize, dynSize := size, false;
      data, capacity, currPos := new Byte[size], size, 0;
    }

    /** The next whole number of chunks; at least one. */
    function AlignLength(len: nat): (r: nat)
      requires chunkSize > 0
      ensures len <= r && 0 < r < (if len == 0 then 1 else len) + chunkSize && r % chunkSize == 0
    {
      var chunks := (len + chunkSize - 1) / chunkSize;
      Aligned(len, chunkSize);
      WholeChunks(if len == 0 then chunks + 1 else chunks, chunkSize);
      (if len == 0 then chunks + 1 else chunks) * chunkSize
    }

    /** A shorter length drops what does not fit; only a fixed array refuses. */
    method Resize(newLength: nat) returns (ok: bool)
      requires Valid()
      modifies this`data, this`capacity, this`currPos
      ensures Valid() && ok == dynSize
      ensures data == old(data) || fresh(data)
      ensures if ok then capacity == AlignLength(newLength) else capacity == old(capacity)
      ensures currPos == if ok && capacity < old(currPos) then capacity else old(currPos)
      ensures Contents() == old(Contents())[..currPos]
    {
      if !dynSize {
        return false;
      }
      ok := true;
      var length := AlignLength(newLength);
      if length == capacity {
        return;
      }
      if length < capacity {
        capacity := length;
        if currPos >= capacity {
          currPos := capacity;
        }
      } else {
        var newData := new Byte[length];
        forall i | 0 <= i < capacity {
          newData[i] := data[i];
        }
        data := newData;
        capacity := length;
      }
    }

    /** Appends, growing when necessary; fails only when a fixed array is too small. */
    method Append(bytes: seq<Byte>) returns (ok: bool)
      requires Valid()
      modifies this`data, this`capacity, this`currPos, data
      ensures Valid() && (data == old(data) || fresh(data))
      ensures ok <==> dynSize || old(currPos) + |bytes| <= old(capacity)
      ensures Contents() == if ok then old(Contents()) + bytes else old(Contents())
      ensures !dynSize ==> capacity == old(capacity)
    {
      ok := true;
      if currPos + |bytes| > capacity {
        ok := Resize(capacity + |bytes|);
        if !ok {
          return;
        }
      }
      ghost var before := data[..currPos];
      forall i | 0 <= i < |bytes| {
        data[currPos + i] := bytes[i];
      }
      assert data[..currPos] == before;
      currPos := currPos + |bytes|;
      assert data[..currPos] == before + bytes;
    }
  }

  lemma Aligned(len: nat, chunk: nat)
    requires chunk > 0
    ensures var chunks := (len + chunk - 1) / chunk;
            && len <= chunks * chunk < len + chunk
            && (len == 0 <==> chunks == 0)
            && (chunks + 1) * chunk == chunks * chunk + chunk
  {
    var n := len + chunk - 1;
    assert n == chunk * (n / chunk) + n % chunk;
  }

  lemma MultiplesApart(c: int, d: int)
    requires c > 0
    ensures (d >= 1 ==> c * d >= c) && (d <= -1 ==> c * d <= -c)
  {
  }

  lemma DivMod(n: nat, c: nat)
    requires c > 0
    ensures n == c * (n / c) + n % c && 0 <= n % c < c
  {
  }

  lemma Distribute(c: nat, k: nat, q: int)
    ensures c * (k - q) == k * c - c * q
  {
  }

  lemma WholeChunks(k: nat, c: nat)
    requires c > 0
    ensures k * c % c == 0
  {
    DivMod(k * c, c);
    Distribute(c, k, k * c / c);
    MultiplesApart(c, k - k * c / c);
  }
}
