/** What a scan reports. Byte strings stand for their hexadecimal rendering. */
module Report {
  import opened Bytes
  import opened Oracles
  import opened Results
  import IvSearch
  import Padding

  datatype Mode = Ecb | Cbc | Ctr | Gcm | Stream

  datatype Hit = Hit(
    algo: string, mode: Mode, key: seq<byte>, keyOffset: nat,
    iv: Option<seq<byte>>, ivOffset: Option<nat>, nonce: Option<seq<byte>>,
    padding: Option<Padding.Label>, plaintext: seq<byte>, matched: Match,
    ivCandidates: seq<IvSearch.IvCandidate>)
}
