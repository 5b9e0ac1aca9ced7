/** The `HammingCode` object: its constructor reduces the seed matrix to the
    systematic generator matrix, derives the parity-check matrix and builds the
    syndrome table; `Encode` and `Decode` are the source's loops, each proved
    to compute the matching function of module Secded. No method changes the
    object after construction, so its fields are constants. */
module HammingCode {
  import opened GF2
  import opened Reduction
  import opened Secded
  import opened Seed

  /** The constructor's loop over the columns of `h`: column `i`, read as a tuple, maps to `i`. */
  method BuildSyndromeMap(h: Matrix) returns (syndromeMap: map<Vector, nat>)
    requires |h| > 0 && IsMatrix(h, |h|, |h[0]|)
    ensures IsSyndromeTable(syndromeMap, h, |h[0]|)
  {
    syndromeMap := map[];
    var rowsH := |h|;
    var colsH := |h[0]|;
    for colIdx := 0 to colsH
      invariant IsSyndromeTable(syndromeMap, h, colIdx)
    {
      var colVector := seq(rowsH, r requires 0 <= r < rowsH => h[r][colIdx]);
      assert colVector == Column(h, colIdx);
      syndromeMap := syndromeMap[colVector := colIdx];
    }
  }

  class HammingCode {
    /** The non-systematic seed matrix `G'`. */
    const gns: Matrix
    /** The systematic generator matrix `G = [I6 | P]`. */
    const g: Matrix
    /** The parity-check matrix `H = [Pᵀ | I4]`. */
    const h: Matrix
    /** Maps the syndrome of a single flip of bit `i` to `i`. */
    const syndromeMap: map<Vector, nat>

    /** The invariant the methods rely on: `G` is systematic, `H` is derived
        from it with distinct nonzero columns, and the table is built from `H`. */
    ghost predicate Valid()
    {
      gns == GNS && IsSecded(g, h, syndromeMap)
    }

    constructor ()
      ensures Valid()
      ensures g == GaussJordan(GNS) && h == DeriveH(g)
      ensures IsSyndromeTable(syndromeMap, h, HAMMING_BITS)
      ensures g == G_SYS && h == H_SYS && syndromeMap == SYNDROME_TABLE
    {
      gns := GNS;
      var gSys := ConvertToG(GNS);
      SeedReduces();
      var hSys := DeriveH(gSys);
      var table := BuildSyndromeMap(hSys);
      g := gSys;
      h := hSys;
      syndromeMap := table;
      SeedCheckMatrix();
      SyndromeTableOfHSys(table);
      GSysSystematic();
      SeedIsSecded(table);
    }

    /** `encode`: rejects a word that is not six bits long; otherwise `u·G` bit by bit, then the overall parity. */
    method Encode(sourceWord: Vector) returns (r: Result<Vector>)
      requires Valid()
      ensures |sourceWord| != DATA_BITS ==> r == LengthError(DATA_BITS)
      ensures |sourceWord| == DATA_BITS ==> r == Ok(EncodeWord(g, sourceWord))
      ensures r.Ok? ==>
        |r.value| == TOTAL_BITS && r.value[..DATA_BITS] == sourceWord && Parity(r.value) == 0 &&
        IsZero(Syndrome(h, r.value[..HAMMING_BITS]))
    {
      if |sourceWord| != DATA_BITS {
        return LengthError(DATA_BITS);
      }
      var encodedBits: Vector := [];
      var colsG := |g[0]|;
      for i := 0 to colsG
        invariant encodedBits == EncodeHamming(g, sourceWord)[..i]
      {
        var colG := seq(DATA_BITS, row requires 0 <= row < DATA_BITS => g[row][i]);
        assert colG == Column(g, i);
        var bit := DotMod2(sourceWord, colG);
        encodedBits := encodedBits + [bit];
      }
      assert encodedBits == EncodeHamming(g, sourceWord);
      encodedBits := encodedBits + [Sum(encodedBits) % 2];
      EncodeWordProperties(g, sourceWord);
      return Ok(encodedBits);
    }

    /** `decode`: rejects a word that is not eleven bits long; otherwise the
        parity check, the syndrome row by row, and the SECDED decision, flipping
        the looked-up bit of the Hamming part. */
    method Decode(encodedWord: Vector) returns (r: Result<(Option<Vector>, HCResult)>)
      requires Valid()
      ensures |encodedWord| != TOTAL_BITS ==> r == LengthError(TOTAL_BITS)
      ensures |encodedWord| == TOTAL_BITS ==> r == Ok(DecodeWord(h, syndromeMap, encodedWord))
      ensures r.Ok? && r.value.1 == VALID ==> encodedWord == EncodeWord(g, encodedWord[..DATA_BITS])
      ensures r.Ok? && r.value.1 == CORRECTED ==>
        r.value.0.Some? && exists i :: 0 <= i < TOTAL_BITS && encodedWord == Flip(EncodeWord(g, r.value.0.value), i)
      ensures r.Ok? && r.value.1 == UNCORRECTABLE ==>
        r.value.0 == None && forall d :: |d| == DATA_BITS ==> encodedWord != EncodeWord(g, d)
    {
      if |encodedWord| != TOTAL_BITS {
        return LengthError(TOTAL_BITS);
      }
      DecodeOutcomes(g, h, syndromeMap, encodedWord);
      var hammingPart: Vector := encodedWord[..HAMMING_BITS];
      var receivedP5 := encodedWord[HAMMING_BITS];
      var hasParityError := Sum(hammingPart) % 2 != receivedP5;
      var syndrome: Vector := [];
      for k := 0 to |h|
        invariant syndrome == Syndrome(h, hammingPart)[..k]
      {
        syndrome := syndrome + [DotMod2(hammingPart, h[k])];
      }
      assert syndrome == Syndrome(h, hammingPart);
      var syndromeIsZero := IsZero(syndrome);
      if syndromeIsZero {
        if !hasParityError {
          return Ok((Some(hammingPart[..DATA_BITS]), VALID));
        } else {
          return Ok((Some(hammingPart[..DATA_BITS]), CORRECTED));
        }
      } else {
        if hasParityError {
          var errorIdx: int := if syndrome in syndromeMap then syndromeMap[syndrome] else -1;
          if errorIdx != -1 {
            assert Xor(hammingPart[errorIdx], 1) == 1 - hammingPart[errorIdx];
            hammingPart := hammingPart[errorIdx := Xor(hammingPart[errorIdx], 1)];
            assert hammingPart == Flip(encodedWord[..HAMMING_BITS], syndromeMap[syndrome]);
            return Ok((Some(hammingPart[..DATA_BITS]), CORRECTED));
          }
        }
        return Ok((None, UNCORRECTABLE));
      }
    }
  }
}
