/** The two MTU formulas, gp_config.go and dtls_certificate.go, against the sizes the
    encoders really produce. */
module TunnelMtu {
  import opened Bytes
  import Esp = EspAssociations
  import opened DtlsRecords
  import Records = DtlsCbcRecords

  const DEFAULT_BASE := 1406
  const MINIMUM_BASE := 1280

  /** The remainder of the source's language: it has the sign of the dividend. */
  function Remainder(a: int, b: int): int
    requires b > 0
  {
    if a >= 0 then a % b else -((-a) % b)
  }

  /** How long a sealed datagram is. */
  function SealedLength(payloadLength: nat, icv: nat): nat {
    Esp.HEADER + payloadLength + Esp.PaddingLength(payloadLength) + 2 + icv
  }

  lemma SealedLengthIsDatagram(c: Esp.Crypto, a: Esp.Association, payload: seq<Byte>, nextHeader: Byte)
    requires Esp.LawfulCrypto(c) && Esp.WellFormed(a) && a.valid
    ensures |Esp.Datagram(c, a, payload, nextHeader)| == SealedLength(|payload|, Esp.IcvLength(a.authentication))
    ensures |Esp.Datagram(c, a, payload, nextHeader)|
         == 24 + (|payload| + 17) / 16 * 16 + (if a.authentication == Esp.HmacSha256 then 16 else 12)
  {
  }

  function OuterHeader(outerIPv6: bool): nat {
    if outerIPv6 then 40 else 20
  }

  /** A payload of that length fits the base MTU inside ESP, UDP and the outer header. */
  predicate EspFits(payloadLength: nat, baseMtu: nat, outerIPv6: bool, icv: nat) {
    SealedLength(payloadLength, icv) + 8 + (if outerIPv6 then 40 else 20)
      <= (if baseMtu == 0 then 1406 else if baseMtu < 1280 then 1280 else baseMtu)
  }

  /** calculateGPTunnelMTU; the authentication of the ESP keys, or None without ESP. With
      no requested MTU the ESP result is the largest payload that fits. */
  method CalculateTunnelMtu(requestedMtu: nat, baseMtu: nat, outerIPv6: bool, esp: Option<Esp.Authentication>) returns (mtu: int)
    ensures requestedMtu == 0 && esp.Some? ==> mtu >= 0
    ensures requestedMtu == 0 && esp.Some? ==>
              forall n: nat :: EspFits(n, baseMtu, outerIPv6, Esp.IcvLength(esp.value)) <==> n <= mtu
    ensures requestedMtu == 0 && esp.None? ==>
              mtu == (if baseMtu == 0 then 1406 else if baseMtu < 1280 then 1280 else baseMtu) - (if outerIPv6 then 40 else 20) - 25
    ensures requestedMtu > 0 && esp.None? ==> mtu == requestedMtu - 5
    ensures requestedMtu > 0 && esp.Some? ==>
              forall n: nat :: SealedLength(n, Esp.IcvLength(esp.value)) <= requestedMtu <==> n <= mtu
  {
    var base := baseMtu;
    if base == 0 {
      base := DEFAULT_BASE;
    }
    if base < MINIMUM_BASE {
      base := MINIMUM_BASE;
    }
    mtu := requestedMtu;
    if mtu == 0 {
      mtu := base - OuterHeader(outerIPv6);
      if esp.None? {
        mtu := mtu - 20;
      } else {
        mtu := mtu - 8;
      }
    }
    if esp.None? {
      return mtu - 5;
    }
    var icv := Esp.IcvLength(esp.value);
    ghost var room := mtu;
    mtu := mtu - (8 + icv + 16);
    mtu := mtu - Remainder(mtu, 16);
    mtu := mtu - 2;
    forall n: nat ensures SealedLength(n, icv) <= room <==> n <= mtu {
      LargestSealed(n, icv, room);
    }
  }

  /** The formula is exact for every room; where nothing fits it is negative. */
  lemma LargestSealed(n: nat, icv: nat, room: int)
    ensures var left := room - Esp.HEADER - icv; SealedLength(n, icv) <= room <==> n <= left - Remainder(left, 16) - 2
  {
    var text, left := n + Esp.PaddingLength(n) + 2, room - Esp.HEADER - icv;
    assert text % 16 == 0 && n + 2 <= text <= n + 17;
    WholeBlocksFit(text / 16, n, left);
  }

  /** k blocks hold n and the two trailer bytes and no fewer do: they fit what is left if and
      only if n does, less the odd bytes and two. */
  lemma WholeBlocksFit(k: nat, n: nat, left: int)
    requires 16 * k - 15 <= n + 2 <= 16 * k
    ensures 16 * k <= left <==> n <= left - Remainder(left, 16) - 2
  {
    if left >= 0 {
      var q := left / 16;
      assert left == 16 * q + Remainder(left, 16);
    }
  }

  // ---------------------------------------------------------------- CBC records

  /** How long an AES-CBC record is: header, initial vector, payload, MAC and padding. */
  function RecordLength(payloadLength: nat): nat {
    HEADER + 16 + payloadLength + Records.MAC_LENGTH + Records.PaddingLength(payloadLength + Records.MAC_LENGTH, 16)
  }

  lemma RecordLengthIsRecord(s: Records.Suite, r: Record, key: seq<Byte>, macKey: seq<Byte>, iv: seq<Byte>)
    requires Records.LawfulSuite(s) && s.blockLength == 16 && |iv| == 16
    requires Records.EncryptRecord(s, r, key, macKey, iv).Ok?
    ensures |Records.EncryptRecord(s, r, key, macKey, iv).value| == RecordLength(|r.payload|)
    ensures RecordLength(|r.payload|) == 29 + (|r.payload| + 36) / 16 * 16
  {
  }

  /** certificateDTLSCBCDataMTU. */
  function CbcDataMtu(mtu: int): nat {
    if mtu <= 29 then 0
    else
      var dataMtu := ((mtu - 29) / 16 * 16) - 21;
      if dataMtu < 0 then 0 else dataMtu
  }

  /** The data MTU is the largest payload whose record fits exactly when some record does,
      which takes a record MTU of at least 61; below that it is 0 and nothing fits. */
  lemma CbcDataMtuExact(mtu: int)
    ensures mtu >= 61 <==> RecordLength(CbcDataMtu(mtu)) <= mtu
    ensures mtu >= 61 ==> forall n: nat :: RecordLength(n) <= mtu <==> n <= CbcDataMtu(mtu)
    ensures mtu < 61 ==> forall n: nat :: RecordLength(n) > mtu
  {
    forall n: nat
      ensures mtu >= 61 ==> (RecordLength(n) <= mtu <==> n <= CbcDataMtu(mtu))
      ensures mtu < 61 ==> RecordLength(n) > mtu
    {
      LargestRecord(n, mtu);
    }
  }

  lemma LargestRecord(n: nat, mtu: int)
    ensures mtu >= 61 ==> (RecordLength(n) <= mtu <==> n <= CbcDataMtu(mtu))
    ensures mtu < 61 ==> RecordLength(n) > mtu
  {
    var text := n + 20 + Records.PaddingLength(n + 20, 16);
    assert text % 16 == 0 && n + 21 <= text <= n + 36;
  }
}
