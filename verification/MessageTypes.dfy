/** The message structures of msg.go and types.go. */
module MessageTypes {
  import opened Bytes
  import opened Records

  datatype MsgHdr = MsgHdr(
    id: uint16, response: bool, opcode: int, authoritative: bool, truncated: bool, recursionDesired: bool,
    recursionAvailable: bool, zero: bool, authenticatedData: bool, checkingDisabled: bool, rcode: int)

  datatype Question = Question(name: str, qtype: uint16, qclass: uint16)

  /** A message to pack; compress asks for compressed wire form. */
  datatype Msg = Msg(hdr: MsgHdr, compress: bool, question: seq<Question>, answer: seq<RR>, ns: seq<RR>,
                     extra: seq<RR>) {
    /** All records in the order they are packed. */
    function Recs(): seq<Rec> {
      RecsOf(answer) + RecsOf(ns) + RecsOf(extra)
    }
  }

  function RecsOf(rrs: seq<RR>): (rs: seq<Rec>)
    ensures |rs| == |rrs| && forall i | 0 <= i < |rrs| :: rs[i] == rrs[i].rec
  {
    if rrs == [] then [] else [rrs[0].rec] + RecsOf(rrs[1..])
  }
}
