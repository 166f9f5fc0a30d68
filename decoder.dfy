/**
  The decoder (`decompress_binary` with `__reconstruct_dict` and
  `__get_original`): read the code table back from the trailer and expand
  every payload octet through it.
*/
module Decoder {
  import opened Octets
  import opened Dict
  import opened CodeTable

  /**
    The artifacts the decoder can index: a count octet n and at least 3n
    octets in all. On a shorter artifact the source raises an index error.
  */
  predicate Framed(data: seq<byte>) {
    |data| >= 1 && 3 * (data[0] as int) <= |data|
  }

  /**
    The slice `data[-3 * n:]`. For n == 0 Python's `-0` makes it the whole
    artifact, of which no record is read.
  */
  function TableChunk(data: seq<byte>): (chunk: seq<byte>)
    requires Framed(data)
    ensures 3 * (data[0] as int) <= |chunk|
  {
    if data[0] == 0 then data else data[|data| - 3 * (data[0] as int)..]
  }

  /** `__reconstruct_dict`: the table after reading all n trailer records. */
  function ParsedTable(data: seq<byte>): (t: Table)
    requires Framed(data)
    ensures |t| <= data[0] && UniqueKeys(t)
  {
    Records(TableChunk(data), data[0])
  }

  /**
    The octets `decompress_binary` expands: indices 1 up to (excluding)
    `len(compressed_bytes) - len(reconstruction_dict) * 3`.
  */
  function Payload(data: seq<byte>): seq<byte>
    requires Framed(data)
  {
    var dataLen := |data| - 3 * |ParsedTable(data)|;
    if dataLen <= 1 then [] else data[1..dataLen]
  }

  /**
    The result of `decompress_binary`: the concatenated expansions of the
    payload, or None when some expansion recurses without end.
  */
  function Decoded(data: seq<byte>): Option<seq<byte>>
    requires Framed(data)
  {
    ExpandAll(ParsedTable(data), Payload(data))
  }

  /**
    Framing: an artifact written from a table with unique keys reads back
    as exactly that table, in the same order, and exactly that payload, so
    decoding it is expanding the payload through the table.
  */
  lemma DecodeArtifact(t: Table, buf: seq<byte>)
    requires UniqueKeys(t) && |t| <= 255
    ensures Framed(Artifact(t, buf))
    ensures ParsedTable(Artifact(t, buf)) == t
    ensures Payload(Artifact(t, buf)) == buf
    ensures Decoded(Artifact(t, buf)) == ExpandAll(t, buf)
  {
    var a := Artifact(t, buf);
    assert a[0] == |t|;
    if |t| == 0 {
      assert Records(TableChunk(a), 0) == [] == t;
    } else {
      assert TableChunk(a) == Serialize(t);
      RecordsOfSerialize(t);
    }
    assert a[1..1 + |buf|] == buf;
  }

  /** The loop of `__reconstruct_dict`: one record `[code, c0, c1]` per step. */
  method ReconstructTable(data: seq<byte>) returns (table: Table)
    requires Framed(data)
    ensures table == ParsedTable(data)
  {
    var byteLen: int := data[0];
    var tableChunk := TableChunk(data);
    table := [];
    // `for i in range(0, 3 * byte_len, 3)`, counted in records
    var records := 0;
    while records < byteLen
      invariant records <= byteLen
      invariant table == Records(tableChunk, records)
    {
      RecordsNext(tableChunk, records);
      var i := 3 * records;
      table := Put(table, tableChunk[i], Pair(tableChunk[i + 1], tableChunk[i + 2]));
      records := records + 1;
    }
  }

  /** Where the expansion loop stops, the payload ends. */
  lemma PayloadIs(data: seq<byte>, i: nat)
    requires Framed(data)
    requires i == if |data| - 3 * |ParsedTable(data)| <= 1 then 1 else |data| - 3 * |ParsedTable(data)|
    ensures 1 <= i <= |data| && Payload(data) == data[1..i]
  {
    var n := |ParsedTable(data)|;
    assert n <= data[0];
    if |data| - 3 * n <= 1 {
      assert Payload(data) == [] == data[1..1];
    }
  }

  /**
    One step of the expansion loop: the prefix up to i + 1 expands to the
    prefix up to i followed by the expansion of octet i; if that octet has
    none, no longer prefix has one either.
  */
  lemma ExpandStep(t: Table, data: seq<byte>, i: nat, acc: seq<byte>, end: nat)
    requires 1 <= i < end <= |data| && ExpandAll(t, data[1..i]) == Some(acc)
    ensures GetOriginal(t, data[i]).Some? ==>
      ExpandAll(t, data[1..i + 1]) == Some(acc + GetOriginal(t, data[i]).value)
    ensures GetOriginal(t, data[i]).None? ==> ExpandAll(t, data[1..end]).None?
  {
    assert data[1..i + 1][..i - 1] == data[1..i];
    assert data[1..end] == data[1..i + 1] + data[i + 1..end];
    ExpandAllAppend(t, data[1..i + 1], data[i + 1..end]);
  }

  /**
    `decompress_binary`: reconstruct the table, then append the expansion
    of every payload octet in turn. An expansion that recurses without end
    (Python's RecursionError) ends the decoding with None.
  */
  method Decompress(compressedBytes: seq<byte>) returns (r: Option<seq<byte>>)
    requires Framed(compressedBytes)
    ensures r == Decoded(compressedBytes)
  {
    var decompressedData: seq<byte> := [];
    var reconstructionDict := ReconstructTable(compressedBytes);
    var dataLen := |compressedBytes| - |reconstructionDict| * 3;
    PayloadIs(compressedBytes, if dataLen <= 1 then 1 else dataLen);
    var i := 1;
    while i < dataLen
      invariant 1 <= i && (i == 1 || i <= dataLen)
      invariant ExpandAll(reconstructionDict, compressedBytes[1..i]) == Some(decompressedData)
    {
      var piece := GetOriginal(reconstructionDict, compressedBytes[i]);
      ExpandStep(reconstructionDict, compressedBytes, i, decompressedData, dataLen);
      if piece.None? {
        return None;
      }
      decompressedData := decompressedData + piece.value;
      i := i + 1;
    }
    r := Some(decompressedData);
  }
}
