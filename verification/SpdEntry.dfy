/** A security policy as the daemon stores it. The entry's name lives in the list node. */
module SpdEntry {

  const IPSEC_DIR_INBOUND := 1
  const IPSEC_DIR_OUTBOUND := 2
  const IPSEC_DIR_FORWARD := 3

  datatype SpdData = SpdData(
    index: int,
    policyDir: nat,
    reqId: nat,
    localSubnet: string,
    remoteSubnet: string,
    tunnelLocal: string,
    tunnelRemote: string,
    innerProtocol: nat,
    srcPort: nat,
    dstPort: nat,
    action: nat,
    extSeqNum: bool,
    seqOverflow: bool,
    ipsecMode: nat,
    protocolParameters: nat,
    integrityAlg: nat,
    encryptionAlg: nat,
    antiReplayWindow: nat,
    pfpFlag: bool,
    statefulFragCheck: bool,
    bypassDscp: bool,
    ecn: bool,
    tfcPad: bool,
    dfBit: nat)

  /** `create_spd_node`; text the source leaves uninitialised is empty here. */
  const BLANK_SPD := SpdData(
    0, 0, 0, "", "", "", "", 0, 0, 0, 0, false, false, 0, 0, 0, 0, 0, false, false, false, false, false, 0)
}
