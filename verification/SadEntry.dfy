/**
 A security association as the daemon stores it. The entry's name lives in the list node.
 Keys are octet strings without a zero octet: they are C strings.
 */
module SadEntry {
  import opened Bytes
  import opened Text

  type Octets = s: seq<byte> | 0 !in s witness []

  datatype Lifetimes = Lifetimes(octets: nat, packets: nat, time: nat, idle: nat)

  datatype SadData = SadData(
    reqId: nat,
    spi: nat,
    extSeqNum: bool,
    seqOverflow: bool,
    seqNumberCounter: nat,
    antiReplayWindow: nat,
    localSubnet: string,
    remoteSubnet: string,
    tunnelLocal: string,
    tunnelRemote: string,
    innerProtocol: nat,
    srcPort: nat,
    dstPort: nat,
    ipsecMode: nat,
    protocolParameters: nat,
    integrityAlg: nat,
    encryptionAlg: nat,
    encryptionKeyLength: nat,
    encryptionKey: Octets,
    integrityKey: Octets,
    encryptionIv: Octets,
    bypassDscp: bool,
    ecn: bool,
    tfcPad: bool,
    dfBit: nat,
    hard: Lifetimes,
    soft: Lifetimes,
    current: Lifetimes)

  const MAX_KEY := 1024

  const NO_LIFETIMES := Lifetimes(0, 0, 0, 0)

  /** `create_sad_node`; text the source leaves uninitialised is empty here. */
  const BLANK_SAD := SadData(
    0, 0, false, false, 0, 0, "", "", "", "", 0, 0, 0, 0, 0, 0, 0, 0, [], [], [], false, false, false, 0,
    NO_LIFETIMES, NO_LIFETIMES, NO_LIFETIMES)
}
