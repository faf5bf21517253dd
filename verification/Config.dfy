/** Cipher choices, the scan configuration and its validation. */
module Config {
  import opened Bytes
  import opened CounterMode
  import opened Results

  datatype CipherChoice = Aes128 | Aes192 | Aes256 | Des | TdesEde3 | Sm4 | ChaCha20 | XChaCha20 {

    function Label(): string {
      match this
      case Aes128 => "aes-128"
      case Aes192 => "aes-192"
      case Aes256 => "aes-256"
      case Des => "des"
      case TdesEde3 => "3des-ede3"
      case Sm4 => "sm4"
      case ChaCha20 => "chacha20"
      case XChaCha20 => "xchacha20"
    }

    predicate IsAes() {
      Aes128? || Aes192? || Aes256?
    }

    predicate IsStream() {
      ChaCha20? || XChaCha20?
    }

    function KeyLen(): nat {
      match this
      case Aes128 => 16
      case Aes192 => 24
      case Aes256 => 32
      case Des => 8
      case TdesEde3 => 24
      case Sm4 => 16
      case _ => 32
    }

    function BlockLen(): nat
      requires !IsStream()
    {
      if Des? || TdesEde3? then 8 else 16
    }

    function NonceLen(): nat
      requires IsStream()
    {
      if ChaCha20? then 12 else 24
    }
  }

  datatype ScanConfig = ScanConfig(
    ciphers: seq<CipherChoice>, mode: CipherMode, maxHits: nat, scanIv: bool,
    fixedIv: Option<seq<byte>>, nonce: Option<seq<byte>>, tag: Option<seq<byte>>, aad: Option<seq<byte>>)

  datatype Error =
    | StreamMixedWithBlock | IvForStream | NonceRequired | XChaChaNonce(got: nat) | ChaChaNonce(got: nat)
    | TagLength | CtrIsAesOnly | NonceNotAllowed | TagNotAllowed | AadNotAllowed | IvNotAllowed | NonceLength
    | AadWithoutTag | AesOnly | NoOracle | EmptyCiphertext | Misaligned(len: nat, block: nat)
    | FixedIvLength(got: nat, algo: string, block: nat)

  // ------------------------------------------------------------ validation

  /** `validate_config`: the first failing check, if any. */
  function Rejection(c: ScanConfig): Option<Error> {
    if exists i :: 0 <= i < |c.ciphers| && c.ciphers[i].IsStream() then StreamRejection(c)
    else
      match c.mode
      case Block =>
        if c.nonce.Some? then Some(NonceNotAllowed)
        else if c.tag.Some? then Some(TagNotAllowed)
        else if c.aad.Some? then Some(AadNotAllowed)
        else None
      case Ctr =>
        if c.fixedIv.Some? then Some(IvNotAllowed)
        else if c.tag.Some? then Some(TagNotAllowed)
        else if c.aad.Some? then Some(AadNotAllowed)
        else if c.nonce.None? then Some(NonceRequired)
        else if |c.nonce.value| != 16 then Some(NonceLength)
        else NonAes(c)
      case Gcm =>
        if c.fixedIv.Some? then Some(IvNotAllowed)
        else if c.nonce.None? then Some(NonceRequired)
        else if |c.nonce.value| != 12 then Some(NonceLength)
        else if c.tag.Some? && |c.tag.value| != 16 then Some(TagLength)
        else if c.tag.None? && c.aad.Some? then Some(AadWithoutTag)
        else NonAes(c)
  }

  function NonAes(c: ScanConfig): Option<Error> {
    if exists i :: 0 <= i < |c.ciphers| && !c.ciphers[i].IsAes() then Some(AesOnly) else None
  }

  function StreamRejection(c: ScanConfig): Option<Error> {
    if exists i :: 0 <= i < |c.ciphers| && !c.ciphers[i].IsStream() then Some(StreamMixedWithBlock)
    else if c.fixedIv.Some? then Some(IvForStream)
    else if c.nonce.None? then Some(NonceRequired)
    else if XChaCha20 in c.ciphers && |c.nonce.value| != 24 then Some(XChaChaNonce(|c.nonce.value|))
    else if ChaCha20 in c.ciphers && |c.nonce.value| != 12 then Some(ChaChaNonce(|c.nonce.value|))
    else if c.tag.Some? && |c.tag.value| != 16 then Some(TagLength)
    else if c.mode == Ctr then Some(CtrIsAesOnly)
    else None
  }

  /** Every slice a cipher of the configuration will be handed has the length its consumer needs. */
  ghost predicate Drivable(c: ScanConfig, choice: CipherChoice) {
    if choice.IsStream() then
      && c.nonce.Some? && |c.nonce.value| == choice.NonceLen()
      && (c.tag.Some? ==> |c.tag.value| == 16)
    else if c.mode == Block then
      c.nonce.None? && c.tag.None? && c.aad.None?
    else
      && choice.IsAes() && choice.BlockLen() == 16
      && c.fixedIv.None?
      && c.nonce.Some? && NonceFits(c.mode, c.nonce.value)
      && (c.tag.Some? ==> c.mode == Gcm && |c.tag.value| == 16)
      && (c.aad.Some? ==> c.tag.Some?)
  }

  /** An accepted configuration is drivable for every cipher, and never mixes families or both ChaCha variants. */
  lemma AcceptedIsDrivable(c: ScanConfig)
    requires Rejection(c).None?
    ensures forall i :: 0 <= i < |c.ciphers| ==> Drivable(c, c.ciphers[i])
    ensures forall i, j :: 0 <= i < |c.ciphers| && 0 <= j < |c.ciphers| && c.ciphers[i].IsStream() ==>
      c.ciphers[j] == c.ciphers[i]
  {
    if exists i :: 0 <= i < |c.ciphers| && c.ciphers[i].IsStream() {
      forall i, j | 0 <= i < |c.ciphers| && 0 <= j < |c.ciphers|
        ensures c.ciphers[j] == c.ciphers[i] && c.ciphers[i].IsStream()
      {
        assert c.ciphers[i] in c.ciphers && c.ciphers[j] in c.ciphers;
      }
    }
  }

  lemma StreamAcceptedIff(c: ScanConfig)
    requires exists i :: 0 <= i < |c.ciphers| && c.ciphers[i].IsStream()
    ensures StreamRejection(c).None? <==>
      && (forall i :: 0 <= i < |c.ciphers| ==> c.ciphers[i].IsStream() && Drivable(c, c.ciphers[i]))
      && c.fixedIv.None? && c.mode != Ctr
  {
    forall i | 0 <= i < |c.ciphers|
      ensures c.ciphers[i] in c.ciphers
    {}
    if XChaCha20 in c.ciphers {
      var i :| 0 <= i < |c.ciphers| && c.ciphers[i] == XChaCha20;
    }
    if ChaCha20 in c.ciphers {
      var i :| 0 <= i < |c.ciphers| && c.ciphers[i] == ChaCha20;
    }
  }

  lemma BlockAcceptedIff(c: ScanConfig)
    requires c.ciphers != [] && forall i :: 0 <= i < |c.ciphers| ==> !c.ciphers[i].IsStream()
    ensures Rejection(c).None? <==> forall i :: 0 <= i < |c.ciphers| ==> Drivable(c, c.ciphers[i])
  {
    assert !c.ciphers[0].IsStream();
  }

  /**
   * A configuration with a cipher is accepted if and only if every cipher is drivable and, as
   * soon as one is a stream cipher, all are, no IV is given and the mode is not CTR.
   */
  lemma AcceptedIff(c: ScanConfig)
    requires c.ciphers != []
    ensures Rejection(c).None? <==>
      && (forall i :: 0 <= i < |c.ciphers| ==> Drivable(c, c.ciphers[i]))
      && ((exists i :: 0 <= i < |c.ciphers| && c.ciphers[i].IsStream()) ==>
            && (forall i :: 0 <= i < |c.ciphers| ==> c.ciphers[i].IsStream())
            && c.fixedIv.None? && c.mode != Ctr)
  {
    if exists i :: 0 <= i < |c.ciphers| && c.ciphers[i].IsStream() {
      StreamAcceptedIff(c);
    } else {
      BlockAcceptedIff(c);
    }
  }

  /** What a rejection says is so. */
  lemma RejectionIsTrue(c: ScanConfig)
    requires Rejection(c).Some?
    ensures match Rejection(c).value
            case StreamMixedWithBlock =>
              (exists x :: x in c.ciphers && x.IsStream()) && (exists y :: y in c.ciphers && !y.IsStream())
            case IvForStream => c.fixedIv.Some? && forall i :: 0 <= i < |c.ciphers| ==> c.ciphers[i].IsStream()
            case NonceRequired => c.nonce.None?
            case XChaChaNonce(got) => XChaCha20 in c.ciphers && c.nonce.Some? && |c.nonce.value| == got != 24
            case ChaChaNonce(got) => ChaCha20 in c.ciphers && c.nonce.Some? && |c.nonce.value| == got != 12
            case TagLength => c.tag.Some? && |c.tag.value| != 16
            case CtrIsAesOnly => c.mode == Ctr && forall i :: 0 <= i < |c.ciphers| ==> c.ciphers[i].IsStream()
            case NonceNotAllowed => c.mode == Block && c.nonce.Some?
            case TagNotAllowed => c.mode != Gcm && c.tag.Some?
            case AadNotAllowed => c.mode != Gcm && c.aad.Some?
            case IvNotAllowed => c.mode != Block && c.fixedIv.Some?
            case NonceLength => c.nonce.Some? && !NonceFits(c.mode, c.nonce.value)
            case AadWithoutTag => c.tag.None? && c.aad.Some?
            case AesOnly => c.mode != Block && exists y :: y in c.ciphers && !y.IsAes()
            case _ => false
  {
    if i :| 0 <= i < |c.ciphers| && c.ciphers[i].IsStream() {
      assert c.ciphers[i] in c.ciphers;
    }
    if i :| 0 <= i < |c.ciphers| && !c.ciphers[i].IsStream() {
      assert c.ciphers[i] in c.ciphers;
    }
    if i :| 0 <= i < |c.ciphers| && !c.ciphers[i].IsAes() {
      assert c.ciphers[i] in c.ciphers;
    }
  }

  /** A configuration is rejected for mixing families iff it names a stream cipher and a block cipher. */
  lemma MixedIffRejected(c: ScanConfig)
    ensures Rejection(c) == Some(StreamMixedWithBlock) <==>
      (exists x :: x in c.ciphers && x.IsStream()) && (exists y :: y in c.ciphers && !y.IsStream())
  {
    if x :| x in c.ciphers && x.IsStream() {
      var i :| 0 <= i < |c.ciphers| && c.ciphers[i] == x;
      assert c.ciphers[i].IsStream();
    }
    if y :| y in c.ciphers && !y.IsStream() {
      var j :| 0 <= j < |c.ciphers| && c.ciphers[j] == y;
      assert !c.ciphers[j].IsStream();
    }
    if i :| 0 <= i < |c.ciphers| && c.ciphers[i].IsStream() {
      assert c.ciphers[i] in c.ciphers;
    }
    if j :| 0 <= j < |c.ciphers| && !c.ciphers[j].IsStream() {
      assert c.ciphers[j] in c.ciphers;
    }
  }
}
