/** Optional values, results and the errors the modelled code can return. */
module Wrappers {

  datatype Option<T> = None | Some(value: T)

  /** The error kinds the modelled code distinguishes. */
  datatype Error =
    | Foreign(call: string)            // a foreign call (kernel, firewall tool, cluster store) reported an error
    | Parse(text: string)              // text that is not a valid CIDR, IP, integer or JSON document
    | NotVlan(name: string)            // DeletePort refuses a link that is not a VLAN
    | StillAttached(ports: seq<string>) // Bridge.Remove refuses a bridge with foreign ports attached
    | NoSourceIp(source: string)       // addRoute found no route for the source network
    | NoEgressRoute                    // iptables.AddRule found no single route to the egress network
    | Panic(reason: string)            // a Go runtime panic (index out of range, nil dereference)

  datatype Result<T> = Ok(value: T) | Err(error: Error)

  datatype Outcome = Pass | Fail(error: Error)
}
