/** compress and decompressLZS one after the other, on the buffers they work on. */
module LzsRoundTrip {
  import opened Bytes
  import opened LzsFormat
  import opened LzsParse
  import opened LzsCompress
  import opened LzsDecompress

  /** Whatever the compressor's tables, the buffer and the destination held: nine bits for
      every byte and sixteen more are always enough, and what comes back is the source. */
  method CompressThenDecompress(compressor: Compressor, buffer: array<Byte>, source: seq<Byte>, destination: array<Byte>)
    returns (r: Result<nat, CompressError>)
    requires compressor.Shaped() && buffer != destination && |source| <= destination.Length
    requires buffer as object != compressor.hashTable && buffer as object != compressor.hashChain
    modifies compressor.hashTable, compressor.hashChain, buffer, destination
    ensures r.Err? ==> |source| > 65536 || 9 * |source| + 16 > 8 * buffer.Length
    ensures r.Ok? ==> r.value == |source| && destination[..|source|] == source
  {
    WorstCase(source);
    r := compressor.Compress(buffer, source);
    if r.Ok? {
      var n := r.value;
      StreamPrefix(buffer[..], source, n);
      RoundTrip(source, buffer[..], n, destination.Length);
      var read := Decompress(destination, buffer[..n]);
      r := Ok(read.value);
    }
  }

  lemma StreamPrefix(data: seq<Byte>, s: seq<Byte>, n: nat)
    requires n == (|Encoded(s)| + 16) / 8 <= |data| && |Encoded(s)| + 16 <= 8 * |data|
    requires Stream(data)[..|Encoded(s)| + 16] == Encoded(s) + EndField()
    ensures Stream(data)[..8 * n] == (Encoded(s) + EndField())[..8 * n]
  {
    assert Stream(data)[..8 * n] == Stream(data)[..|Encoded(s)| + 16][..8 * n];
  }
}
