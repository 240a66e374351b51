/** Which policies admit what is delivered. */
module TunnelPolicies {
  import opened Bytes
  import opened IpsecSa
  import opened Policies
  import opened Processor
  import opened Tunnel
  import TunnelExample

  /** A delivered packet has been admitted by a policy that carries the reqid of its SA, for all
      databases and packets, if and only if that reqid is not 0: find_by_packet takes 0 for
      "any". */
  lemma ReqidBindsExactly(reqid: U32)
    ensures (forall sad, spd, wire | Ready(sad) :: BindsReqid(sad, spd, wire, reqid)) <==> reqid != 0
  {
    if reqid == 0 {
      TunnelExample.StrayIsDelivered();
    } else {
      forall sad, spd, wire | Ready(sad) ensures BindsReqid(sad, spd, wire, reqid) {
        DeliveryBindsReqid(sad, spd, wire, reqid);
      }
    }
  }
}
