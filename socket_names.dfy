/**
 * The socket lookup tables of elf_det.h: address family, socket type and TCP
 * connection state to their printed names. The state names are those of the
 * TCP state diagram (RFC 793, section 3.2) with the Linux kernel's numbering,
 * which adds NEW_SYN_RECV.
 */
module SocketNames {
  import opened CTypes

  const UNKNOWN: string := "UNKNOWN"

  // ------------------------------------------------------------- families

  const KnownFamilies: set<int> := {1, 2, 10, 16}

  /** socket_family_to_string: AF_UNIX 1, AF_INET 2, AF_INET6 10, AF_NETLINK 16; else "UNKNOWN". */
  function SocketFamilyName(family: u16): (r: string)
    ensures r == UNKNOWN <==> family !in KnownFamilies
  {
    match family
    case 1 => "AF_UNIX"
    case 2 => "AF_INET"
    case 10 => "AF_INET6"
    case 16 => "AF_NETLINK"
    case _ => UNKNOWN
  }

  /** The family a printed name stands for (the inverse table). */
  function SocketFamilyCode(name: string): (r: Option<u16>)
    ensures r.Some? ==> r.value in KnownFamilies
  {
    if name == "AF_UNIX" then Some(1)
    else if name == "AF_INET" then Some(2)
    else if name == "AF_INET6" then Some(10)
    else if name == "AF_NETLINK" then Some(16)
    else None
  }

  /** The family table is a bijection between the four known codes and their names. */
  lemma SocketFamilyRoundTrip(family: u16, name: string)
    ensures family in KnownFamilies ==> SocketFamilyCode(SocketFamilyName(family)) == Some(family)
    ensures SocketFamilyCode(name).Some? ==> SocketFamilyName(SocketFamilyCode(name).value) == name
    ensures SocketFamilyCode(UNKNOWN) == None
  {
  }

  // ------------------------------------------------------------- types

  const KnownTypes: set<int> := {1, 2, 3}

  /** socket_type_to_string: SOCK_STREAM 1, SOCK_DGRAM 2, SOCK_RAW 3; else "UNKNOWN". */
  function SocketTypeName(sockType: u16): (r: string)
    ensures r == UNKNOWN <==> sockType !in KnownTypes
  {
    match sockType
    case 1 => "STREAM"
    case 2 => "DGRAM"
    case 3 => "RAW"
    case _ => UNKNOWN
  }

  /** The socket type a printed name stands for (the inverse table). */
  function SocketTypeCode(name: string): (r: Option<u16>)
    ensures r.Some? ==> r.value in KnownTypes
  {
    if name == "STREAM" then Some(1)
    else if name == "DGRAM" then Some(2)
    else if name == "RAW" then Some(3)
    else None
  }

  /** The type table is a bijection between the three known codes and their names. */
  lemma SocketTypeRoundTrip(sockType: u16, name: string)
    ensures sockType in KnownTypes ==> SocketTypeCode(SocketTypeName(sockType)) == Some(sockType)
    ensures SocketTypeCode(name).Some? ==> SocketTypeName(SocketTypeCode(name).value) == name
    ensures SocketTypeCode(UNKNOWN) == None
  {
  }

  // ------------------------------------------------------------- TCP states

  /** The state names indexed by the Linux TCP state number minus one. */
  const TcpStateNames: seq<string> := [
    "ESTABLISHED", "SYN_SENT", "SYN_RECV", "FIN_WAIT1", "FIN_WAIT2", "TIME_WAIT",
    "CLOSE", "CLOSE_WAIT", "LAST_ACK", "LISTEN", "CLOSING", "NEW_SYN_RECV"]

  /**
   * socket_state_to_string: TCP_ESTABLISHED 1 through TCP_NEW_SYN_RECV 12 to
   * their names; 0 and every code above 12 to "UNKNOWN".
   */
  function SocketStateName(state: u8): (r: string)
    ensures r == UNKNOWN <==> !(1 <= state <= 12)
    ensures 1 <= state <= 12 ==> r == TcpStateNames[state - 1]
  {
    match state
    case 1 => "ESTABLISHED"
    case 2 => "SYN_SENT"
    case 3 => "SYN_RECV"
    case 4 => "FIN_WAIT1"
    case 5 => "FIN_WAIT2"
    case 6 => "TIME_WAIT"
    case 7 => "CLOSE"
    case 8 => "CLOSE_WAIT"
    case 9 => "LAST_ACK"
    case 10 => "LISTEN"
    case 11 => "CLOSING"
    case 12 => "NEW_SYN_RECV"
    case _ => UNKNOWN
  }

  /** The state number a printed name stands for: its position in the table, plus one. */
  function SocketStateCode(name: string): (r: Option<u8>)
    ensures r.Some? ==> 1 <= r.value <= 12 && TcpStateNames[r.value - 1] == name
    ensures r.None? ==> name !in TcpStateNames
  {
    StateIndex(name, 0)
  }

  function StateIndex(name: string, k: nat): (r: Option<u8>)
    requires k <= |TcpStateNames|
    ensures r.Some? ==> k < r.value <= 12 && TcpStateNames[r.value - 1] == name
    ensures r.None? ==> forall j :: k <= j < |TcpStateNames| ==> TcpStateNames[j] != name
    decreases |TcpStateNames| - k
  {
    if k == |TcpStateNames| then None
    else if TcpStateNames[k] == name then Some(k + 1)
    else StateIndex(name, k + 1)
  }

  /** The twelve names are pairwise distinct, so every known state number is recovered from its name. */
  lemma SocketStateRoundTrip(state: u8)
    ensures 1 <= state <= 12 ==> SocketStateCode(SocketStateName(state)) == Some(state)
  {
    if 1 <= state <= 12 {
      var r := SocketStateCode(SocketStateName(state));
      assert TcpStateNames[r.value - 1] == TcpStateNames[state - 1];
      StateNamesDistinct(r.value - 1, state - 1);
    }
  }

  /** Every name the inverse table accepts prints back as itself; "UNKNOWN" is not one of them. */
  lemma SocketStateNameRoundTrip(name: string)
    ensures SocketStateCode(name).Some? ==> SocketStateName(SocketStateCode(name).value) == name
    ensures SocketStateCode(UNKNOWN) == None
  {
  }

  lemma StateNamesDistinct(i: nat, j: nat)
    requires i < |TcpStateNames| && j < |TcpStateNames| && TcpStateNames[i] == TcpStateNames[j]
    ensures i == j
  {
  }
}
