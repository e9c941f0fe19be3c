/**
  Pack entries: compressed when that is strictly smaller, sealed when there is a key, and told apart
  afterwards by nothing but their stored length.
 */
module EntryCodec {
  import opened Bytes

  const KEY_SIZE := 32
  const NONCE_SIZE := 12
  const TAG_SIZE := 16

  datatype Alg = AlgNone | AlgZstd | OtherAlg(code: nat)

  datatype CodecError = BadKeySize | NoRandomness | TooShort | NotAuthentic | NotCompressed | UnknownAlg

  /** The compressor and the AEAD, which this package does not look inside. */
  datatype Suite = Suite(compress: Bytes -> Bytes, decompress: Bytes -> Option<Bytes>,
                         sealWith: (Bytes, Bytes, Bytes) -> Bytes, openWith: (Bytes, Bytes, Bytes) -> Option<Bytes>)

  /**
    Decompressing undoes compressing, no bytes are no data, opening undoes sealing, and a tag is all
    that sealing adds.
   */
  ghost predicate Lawful(s: Suite) {
    && s.decompress([]) == Some([])
    && (forall data: Bytes :: s.decompress(s.compress(data)) == Some(data))
    && (forall key: Bytes, nonce: Bytes, payload: Bytes :: |key| == KEY_SIZE && |nonce| == NONCE_SIZE ==>
          |s.sealWith(key, nonce, payload)| == |payload| + TAG_SIZE
          && s.openWith(key, nonce, s.sealWith(key, nonce, payload)) == Some(payload))
  }

  predicate UsableKey(key: Bytes) {
    key == [] || |key| == KEY_SIZE
  }

  /** No key means no change; a nonce that could not be drawn fails the whole entry. */
  function Sealed(s: Suite, payload: Bytes, key: Bytes, nonce: Option<Bytes>): Result<Bytes, CodecError> {
    if key == [] then Ok(payload)
    else if |key| != KEY_SIZE then Err(BadKeySize)
    else if nonce.None? then Err(NoRandomness)
    else Ok(nonce.value + s.sealWith(key, nonce.value, payload))
  }

  function SealedLen(n: int, key: Bytes): int {
    if key == [] then n else n + NONCE_SIZE + TAG_SIZE
  }

  function Encode(s: Suite, data: Bytes, key: Bytes, nonce: Option<Bytes>): Result<(Bytes, Alg), CodecError> {
    var z := s.compress(data);
    var (payload, alg) := if |z| >= |data| then (data, AlgNone) else (z, AlgZstd);
    match Sealed(s, payload, key, nonce)
    case Err(e) => Err(e)
    case Ok(out) => Ok((out, alg))
  }

  function EncodeZstd(s: Suite, data: Bytes, key: Bytes, nonce: Option<Bytes>): Result<Bytes, CodecError> {
    Sealed(s, s.compress(data), key, nonce)
  }

  function Opened(s: Suite, stored: Bytes, key: Bytes): Result<Bytes, CodecError> {
    if key == [] then Ok(stored)
    else if |key| != KEY_SIZE then Err(BadKeySize)
    else if |stored| < NONCE_SIZE + TAG_SIZE then Err(TooShort)
    else match s.openWith(key, stored[..NONCE_SIZE], stored[NONCE_SIZE..])
      case None => Err(NotAuthentic)
      case Some(payload) => Ok(payload)
  }

  function Decode(s: Suite, stored: Bytes, alg: Alg, key: Bytes): Result<Bytes, CodecError> {
    match Opened(s, stored, key)
    case Err(e) => Err(e)
    case Ok(payload) =>
      match alg
      case AlgNone => Ok(payload)
      case AlgZstd =>
        (match s.decompress(payload)
         case None => Err(NotCompressed)
         case Some(data) => Ok(data))
      case OtherAlg(_) => Err(UnknownAlg)
  }

  /** The algorithm an entry of this many stored bytes was encoded with, if any encoding is that long. */
  function AlgOfStored(s: Suite, data: Bytes, key: Bytes, clen: int): Option<Alg> {
    var raw := SealedLen(|data|, key);
    if clen == raw then Some(AlgNone)
    else if clen > raw || clen <= 0 then None
    else if SealedLen(|s.compress(data)|, key) != clen then None
    else Some(AlgZstd)
  }

  // ---------- Sealing ----------

  ghost predicate GoodNonce(nonce: Option<Bytes>) {
    nonce.Some? ==> |nonce.value| == NONCE_SIZE
  }

  lemma SealedOpens(s: Suite, payload: Bytes, key: Bytes, nonce: Option<Bytes>)
    requires Lawful(s) && GoodNonce(nonce)
    ensures Sealed(s, payload, key, nonce).Ok? <==> key == [] || (|key| == KEY_SIZE && nonce.Some?)
    ensures Sealed(s, payload, key, nonce).Ok? ==>
      && |Sealed(s, payload, key, nonce).value| == SealedLen(|payload|, key)
      && Opened(s, Sealed(s, payload, key, nonce).value, key) == Ok(payload)
  {
    if |key| == KEY_SIZE && nonce.Some? {
      var body := s.sealWith(key, nonce.value, payload);
      var out := nonce.value + body;
      assert |body| == |payload| + TAG_SIZE;
      assert out[..NONCE_SIZE] == nonce.value && out[NONCE_SIZE..] == body;
    }
  }

  // ---------- Exactness ----------

  /**
    Encoding takes a usable key and a drawn nonce and nothing else, and a key of any other length is
    refused both ways.  Decoding under the algorithm that encoding reported gives the data back, sealed
    or not, compressed unconditionally or not.  The length of an encoding tells that algorithm; the
    length of an unconditionally compressed entry tells AlgZstd exactly when compression gained.
   */
  lemma DecodeUndoesEncode(s: Suite, data: Bytes, key: Bytes, nonce: Option<Bytes>)
    requires Lawful(s) && GoodNonce(nonce)
    ensures var e, z := Encode(s, data, key, nonce), EncodeZstd(s, data, key, nonce);
      && (e.Ok? <==> UsableKey(key) && (key == [] || nonce.Some?)) && (z.Ok? <==> e.Ok?)
      && (e.Ok? ==> Decode(s, e.value.0, e.value.1, key) == Ok(data) && Decode(s, z.value, AlgZstd, key) == Ok(data))
      && (e.Ok? ==> AlgOfStored(s, data, key, |e.value.0|) == Some(e.value.1)
                    && (AlgOfStored(s, data, key, |z.value|) == Some(AlgZstd) <==> |s.compress(data)| < |data|))
      && (!UsableKey(key) ==> e == Err(BadKeySize) && forall stored, alg :: Decode(s, stored, alg, key) == Err(BadKeySize))
  {
    SealedOpens(s, data, key, nonce);
    SealedOpens(s, s.compress(data), key, nonce);
    assert s.decompress(s.compress(data)) == Some(data);
  }

  /**
    What is stored: the shorter of the data and its compressed form, as it is without a key, and with one
    behind the nonce and through the AEAD under that key and nonce.
   */
  lemma StoredExactly(s: Suite, data: Bytes, key: Bytes, nonce: Option<Bytes>)
    requires Encode(s, data, key, nonce).Ok?
    ensures var (stored, alg) := Encode(s, data, key, nonce).value;
      var payload := if |s.compress(data)| < |data| then s.compress(data) else data;
      && (alg == AlgZstd <==> |s.compress(data)| < |data|) && (alg == AlgNone <==> |s.compress(data)| >= |data|)
      && (key == [] ==> stored == payload)
      && (key != [] ==> |key| == 32 && nonce.Some? && stored == nonce.value + s.sealWith(key, nonce.value, payload))
  {
  }

  /** What is decoded under a key has been let through by the AEAD, and is refused for no other reason than these. */
  lemma DecodedExactly(s: Suite, stored: Bytes, alg: Alg, key: Bytes)
    requires UsableKey(key)
    ensures key != [] && |stored| < 28 <==> Decode(s, stored, alg, key) == Err(TooShort)
    ensures key == [] || |stored| >= 28 ==>
      var inner := if key == [] then Some(stored) else s.openWith(key, stored[..12], stored[12..]);
      var told := Decode(s, stored, alg, key);
      && (inner.None? <==> told == Err(NotAuthentic))
      && (inner.Some? && alg == AlgNone ==> told == Ok(inner.value))
      && (inner.Some? && alg == AlgZstd && s.decompress(inner.value).Some? ==> told == Ok(s.decompress(inner.value).value))
      && (inner.Some? && alg == AlgZstd && s.decompress(inner.value).None? ==> told == Err(NotCompressed))
      && (inner.Some? && alg.OtherAlg? ==> told == Err(UnknownAlg))
  {
  }

  /** The algorithm an encoding of exactly this many bytes reports, if it succeeds and is that long. */
  ghost function TrueAlg(e: Result<(Bytes, Alg), CodecError>, clen: int): Option<Alg> {
    if e.Ok? && |e.value.0| == clen then Some(e.value.1) else None
  }

  /**
    When the answer is what encoding reports.  Under a usable key always, except for a length of exactly
    the plaintext's own when compression shortens it: the encoding is shorter, and the answer is AlgNone
    all the same.  Under any other key nothing can be encoded, and two lengths are answered anyway.
   */
  lemma AlgOfStoredExactly(s: Suite, data: Bytes, key: Bytes, nonce: Option<Bytes>, clen: int)
    requires Lawful(s) && GoodNonce(nonce) && (key == [] || nonce.Some?)
    ensures var e, told := Encode(s, data, key, nonce), AlgOfStored(s, data, key, clen);
      var gained, verbatim := |s.compress(data)| < |data|, clen == SealedLen(|data|, key);
      && (told == TrueAlg(e, clen) <==>
            if UsableKey(key) then !(verbatim && gained)
            else !verbatim && !(gained && clen == SealedLen(|s.compress(data)|, key)))
      && (UsableKey(key) && told != TrueAlg(e, clen) ==> told == Some(AlgNone) && TrueAlg(e, clen) == None)
  {
    SealedOpens(s, data, key, nonce);
    SealedOpens(s, s.compress(data), key, nonce);
    assert s.decompress(s.compress(data)) == Some(data);
  }

  /** A compressor with one word in its dictionary, and an AEAD that adds a tag of zeros. */
  function Toy(): Suite {
    Suite((data: Bytes) => if data == [] then [] else if data == [7, 7, 7] then [1] else [0] + data,
          (z: Bytes) => if z == [] then Some([]) else if z == [1] then Some([7, 7, 7])
                        else if z[0] == 0 then Some(z[1..]) else None,
          (key: Bytes, nonce: Bytes, payload: Bytes) => payload + seq(TAG_SIZE, _ => 0),
          (key: Bytes, nonce: Bytes, sealed: Bytes) => if |sealed| < TAG_SIZE then None else Some(sealed[..|sealed| - TAG_SIZE]))
  }

  lemma ToyLawful()
    ensures Lawful(Toy())
  {
    var s := Toy();
    forall data: Bytes
      ensures s.decompress(s.compress(data)) == Some(data)
    {
      assert data != [] && data != [7, 7, 7] ==> ([0] + data)[1..] == data;
    }
    forall key: Bytes, nonce: Bytes, payload: Bytes
      ensures |s.sealWith(key, nonce, payload)| == |payload| + TAG_SIZE
      ensures s.openWith(key, nonce, s.sealWith(key, nonce, payload)) == Some(payload)
    {
      var sealed: Bytes := payload + seq(TAG_SIZE, _ => 0);
      assert sealed[..|payload|] == payload;
    }
  }

  /** The exception is real: three bytes that compress to one, and a stored length of three. */
  lemma VerbatimLengthMisread()
    ensures Lawful(Toy()) && Encode(Toy(), [7, 7, 7], [], None) == Ok(([1], AlgZstd))
    ensures AlgOfStored(Toy(), [7, 7, 7], [], 3) == Some(AlgNone)
  {
    ToyLawful();
  }
}
