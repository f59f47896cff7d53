/** Values shared by the models: optional results and DNS messages. */
module Messages {
  datatype Option<+T> = None | Some(value: T)

  const RCODE_NOERROR: nat := 0
  const RCODE_SERVFAIL: nat := 2
  const RCODE_NXDOMAIN: nat := 3

  /** An address as net.IP sees it: To4 yields a value exactly for V4, To16 always does. */
  datatype IP = V4(bits: nat) | V6(bits: nat)

  datatype Record =
    | A(name: string, ttl: nat, ip: IP)
    | AAAA(name: string, ttl: nat, ip: IP)
    | MX(name: string, ttl: nat, preference: nat, mx: string)
    | Opaque(data: string)

  /** The parts of dns.Msg the forwarder looks at; rest stands for everything else. */
  datatype Message = Message(id: nat, rcode: nat, authoritative: bool, answer: seq<Record>, rest: string)
}
