/** The client program: what it keeps from the server's answers, and the texts those answers
    travel as. */
module ChatClient {
  import opened Options
  import opened Scanf
  import opened CString
  import opened Protocol
  import opened ServerModel
  import opened Comparators

  // ---- The server's answers as text ----

  /** A permission as LOGIN shows it. */
  function YesNo(permission: int): string {
    if permission == 0 then "NO" else "YES"
  }

  /** What send_udp_message is called with, and for the last four replies write_fd and
      send_to_client. The usage line depends on the command. Texts a client scans without
      success are split where the scan stops. */
  function ReplyText(r: Reply, usage: string): string {
    match r
    case AlreadyLoggedIn => "You are already logged in\n"
    case InvalidUsage => "Invalid" + (" " + ("usage!" + (" Use: " + usage + "\n")))
    case UserNotFound => "User" + (" " + ("not" + " found\n"))
    case DifferentIp => "You cannot login to this user account. (DIFFERENT IP)\n"
    case WrongPassword => "Wrong password\n"
    case LoggedIn => "Login successfully\n"
    case PortIs(port) => PortText(port)
    case Permissions(c, p, g) =>
      "Current account permissions:\n\tClient-Server: " + YesNo(c)
      + "\n\tP2P: " + YesNo(p) + "\n\tGroup: " + YesNo(g) + "\n"
    case NotLoggedIn => "You" + (" " + ("need" + " to be logged in to perform this command\n"))
    case NoPermission => "You" + (" " + ("do" + " not have permission to use this command\n"))
    case NoUserSession => "Couldn't" + (" " + ("find" + " user session\n"))
    case MessageSent => "Message sent\n"
    case PeerAt(user, ip, port) => PeerText(user, ip, port)
    case DuplicatedGroup => "Duplicated group name\n"
    case GroupCreated(name, ip) => "Group " + name + " Multicast ip: " + ip + "\n"
    case NoMoreGroups => "Cannot create more groups\n"
    case GroupNotFound => "Group not found\n"
    case MulticastIp(ip) => MulticastText(ip)
    case CommandNotFound => "Command not found\n"
    case UserExists => "User already exists\n"
    case UserCreated(name) => "User " + name + " created.\n"
    case UserDeleted(name) => "User " + name + " deleted.\n"
    case User(name) => "User: " + name + "\n"
  }

  /** Scanning stops at the second word when that is not the literal the format wants. */
  lemma SecondWordStops(first: string, second: string)
    requires Token(first) && second != [] && second[0] != 'I' && !IsSpace(second[0])
    ensures ReadPeer(first + (" " + second)).None?
  {
    var last: seq<Directive> := [Space, Word, Space, Literal("Port:"), Space, Number];
    var rest := [Space] + ([Literal("IP:")] + last);
    assert PEER_REPLY == [Word] + rest;
    ScanWord(first, rest, " " + second);
    ScanMismatch("IP:", last, second);
  }

  lemma PeerErrorsAreNoPeers(reply: Reply, usage: string)
    requires
      || reply.NotLoggedIn? || reply.NoPermission? || reply.InvalidUsage?
      || reply.UserNotFound? || reply.NoUserSession?
    ensures ReadPeer(ReplyText(reply, usage)).None?
  {
    if reply.NotLoggedIn? {
      SecondWordStops("You", "need" + " to be logged in to perform this command\n");
    } else if reply.NoPermission? {
      SecondWordStops("You", "do" + " not have permission to use this command\n");
    } else if reply.InvalidUsage? {
      SecondWordStops("Invalid", "usage!" + (" Use: " + usage + "\n"));
    } else if reply.UserNotFound? {
      SecondWordStops("User", "not" + " found\n");
    } else {
      SecondWordStops("Couldn't", "find" + " user session\n");
    }
  }

  /** send_p2p goes on if and only if the server's answer to P2P names a peer, and then it has
      the peer's name, IP and port. */
  lemma PeerAnswersAreTold<P>(s: State<P>, from: Address, user: Option<string>, usage: string)
    requires forall a | a in s.sessions :: Token(a.ip)
    requires user.Some? ==> Token(user.value)
    ensures |P2POutput(s, from, user)| == 1 && P2POutput(s, from, user)[0].ToSender?
    ensures var reply := P2POutput(s, from, user)[0].reply;
            ReadPeer(ReplyText(reply, usage)) ==
            if reply.PeerAt? then Some((reply.user, reply.ip, reply.port)) else None
  {
    var reply := P2POutput(s, from, user)[0].reply;
    if reply.PeerAt? {
      PeerIsRead(reply.user, reply.ip, reply.port);
    } else {
      PeerErrorsAreNoPeers(reply, usage);
    }
  }

  /** connect_multicast goes on if and only if the answer to GETMULTICAST is an address, and
      then it has that address. */
  lemma MulticastAnswersAreTold<P>(s: State<P>, from: Address, group: Option<string>, usage: string)
    requires forall g | g in s.groups :: Token(s.groups[g])
    ensures |GetOutput(s, from, group)| == 1 && GetOutput(s, from, group)[0].ToSender?
    ensures var reply := GetOutput(s, from, group)[0].reply;
            ReadMulticast(ReplyText(reply, usage)) == if reply.MulticastIp? then Some(reply.ip) else None
  {
    var reply := GetOutput(s, from, group)[0].reply;
    if reply.MulticastIp? {
      MulticastIsRead(reply.ip);
    } else {
      GroupErrorsAreNoAddresses(reply, usage);
    }
  }

  lemma GroupErrorsAreNoAddresses(reply: Reply, usage: string)
    requires reply.NotLoggedIn? || reply.NoPermission? || reply.InvalidUsage? || reply.GroupNotFound?
    ensures ReadMulticast(ReplyText(reply, usage)).None?
  {
  }

  // ---- The client's globals ----

  /** message_port, multicast_ip (by its text) and current_group. */
  class Globals {
    var messagePort: int
    var multicastIp: Option<string>
    var currentGroup: string

    constructor ()
      ensures messagePort == 0 && multicastIp == None && currentGroup == ""
    {
      messagePort, multicastIp, currentGroup := 0, None, "";
    }

    /** authenticate, once the server has said that the login succeeded: the next answer is
        the port to listen on. */
    method TakePort(reply: string) returns (ok: bool)
      modifies this`messagePort
      ensures ok <==> ReadPort(reply).Some?
      ensures messagePort == if ok then ReadPort(reply).value else old(messagePort)
      ensures forall sent | reply == PortText(sent) :: ok && messagePort == sent
    {
      forall sent | reply == PortText(sent)
        ensures ReadPort(reply) == Some(sent)
      {
        PortIsRead(sent);
      }
      var port := ReadPort(reply);
      ok := port.Some?;
      if ok {
        messagePort := port.value;
      }
    }

    /** connect_multicast: the address is kept before the membership is asked for, the group
        only if that succeeds. */
    method ConnectMulticast(group: string, reply: string, joins: bool) returns (ok: bool)
      modifies this`multicastIp, this`currentGroup
      ensures ok <==> ReadMulticast(reply).Some? && joins
      ensures multicastIp == if ReadMulticast(reply).Some? then ReadMulticast(reply) else old(multicastIp)
      ensures currentGroup == if ok then group else old(currentGroup)
      ensures forall sent | Token(sent) && reply == MulticastText(sent) :: multicastIp == Some(sent) && ok == joins
    {
      forall sent | Token(sent) && reply == MulticastText(sent)
        ensures ReadMulticast(reply) == Some(sent)
      {
        MulticastIsRead(sent);
      }
      var said := StartsWith(reply, "Multicast IP");
      if !said {
        return false;
      }
      var ip := ReadMulticast(reply);
      if ip.None? {
        return false;
      }
      multicastIp := ip;
      if !joins {
        return false;
      }
      currentGroup := group;
      ok := true;
    }
  }
}
