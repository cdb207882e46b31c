/**
  The tokens that entitle a node to announce itself (src/dht/dht.rs). The checksum
  is a parameter, so nothing is claimed about tokens that were never issued.
 */
module Tokens {
  import opened Wrappers
  import opened Ids
  import opened Nodes
  import opened Messages

  type Checksum = Bytes -> Octets4

  datatype Secrets = Secrets(current: Bytes, previous: Bytes)

  function Octets(a: SocketAddr): Bytes {
    match a case V4(ip, _) => ip case V6(ip, _) => ip
  }

  function CalculateToken(crc: Checksum, remote: SocketAddr, secret: Bytes): Octets4 {
    crc(Octets(remote) + secret)
  }

  predicate Accepts(crc: Checksum, s: Secrets, remote: SocketAddr, token: Bytes) {
    token == CalculateToken(crc, remote, s.current) || token == CalculateToken(crc, remote, s.previous)
  }

  function Rotated(s: Secrets, newSecret: Bytes): Secrets {
    Secrets(newSecret, s.current)
  }

  /** The secrets after rotating to each of the new ones in turn. */
  function AfterRotations(s: Secrets, secrets: seq<Bytes>): Secrets {
    if secrets == [] then s else Rotated(AfterRotations(s, secrets[..|secrets| - 1]), secrets[|secrets| - 1])
  }

  lemma {:induction false} LastTwoSecrets(s: Secrets, secrets: seq<Bytes>)
    ensures var after, n := AfterRotations(s, secrets), |secrets|;
            && after.current == (if n == 0 then s.current else secrets[n - 1])
            && after.previous == (if n == 0 then s.previous else if n == 1 then s.current else secrets[n - 2])
  {
    if secrets != [] {
      LastTwoSecrets(s, secrets[..|secrets| - 1]);
    }
  }

  /**
    A token issued in one state is accepted from the same IP address, on any port,
    at every moment before the second rotation; from then on it is accepted
    exactly if the checksum does not tell its secret from one of the last two.
   */
  lemma {:induction false} TokenLifetime(
      crc: Checksum, s: Secrets, secrets: seq<Bytes>, issuedTo: SocketAddr, from: SocketAddr)
    requires Octets(from) == Octets(issuedTo)
    ensures var token := CalculateToken(crc, issuedTo, s.current);
            var after := AfterRotations(s, secrets);
            && (|secrets| < 2 ==> Accepts(crc, after, from, token))
            && (|secrets| >= 2 ==>
                  (Accepts(crc, after, from, token) <==>
                     token == CalculateToken(crc, issuedTo, secrets[|secrets| - 1]) ||
                     token == CalculateToken(crc, issuedTo, secrets[|secrets| - 2])))
  {
    LastTwoSecrets(s, secrets);
  }

  // ---------- for whom a token is ----------

  /** The same IP address, whatever the ports. */
  predicate SameIp(a: SocketAddr, b: SocketAddr) {
    (a.V4? && b.V4? && a.ip4 == b.ip4) || (a.V6? && b.V6? && a.ip6 == b.ip6)
  }

  /** What the checksum is taken of: the octets of the address, and after them the secret. */
  function TokenText(remote: SocketAddr, secret: Bytes): Bytes {
    if remote.V4? then remote.ip4 + secret else remote.ip6 + secret
  }

  lemma TokenIsChecksumOfText(crc: Checksum, remote: SocketAddr, secret: Bytes)
    ensures CalculateToken(crc, remote, secret) == crc(TokenText(remote, secret))
  {
  }

  lemma TextSays(a: SocketAddr, b: SocketAddr, secret: Bytes, secret': Bytes)
    requires |secret| == |secret'|
    ensures TokenText(a, secret) == TokenText(b, secret') <==> SameIp(a, b) && secret == secret'
  {
    var x, y := TokenText(a, secret), TokenText(b, secret');
    if x == y {
      var n := |x| - |secret|;
      assert x[..n] == y[..n] && x[n..] == y[n..];
      assert x[n..] == secret && y[n..] == secret';
    }
  }

  /** The checksum does not give two texts the same token. */
  ghost predicate TellsApart(crc: Checksum, x: Bytes, y: Bytes) {
    crc(x) == crc(y) ==> x == y
  }

  /**
    If the secrets are of one length and the checksum tells apart what it is taken of, a token is accepted
    from the IP address it was issued to, on any port, while its secret is one of the two in use, and
    in no other case.
   */
  lemma TokenIsForOneIp(
      crc: Checksum, s: Secrets, secrets: seq<Bytes>, issuedTo: SocketAddr, from: SocketAddr)
    requires var after, text := AfterRotations(s, secrets), TokenText(issuedTo, s.current);
             && |after.current| == |s.current| == |after.previous|
             && TellsApart(crc, text, TokenText(from, after.current))
             && TellsApart(crc, text, TokenText(from, after.previous))
    ensures var after := AfterRotations(s, secrets);
            Accepts(crc, after, from, CalculateToken(crc, issuedTo, s.current)) <==>
              SameIp(issuedTo, from) && (s.current == after.current || s.current == after.previous)
  {
    var after := AfterRotations(s, secrets);
    TextSays(issuedTo, from, s.current, after.current);
    TextSays(issuedTo, from, s.current, after.previous);
    TokenIsChecksumOfText(crc, issuedTo, s.current);
    TokenIsChecksumOfText(crc, from, after.current);
    TokenIsChecksumOfText(crc, from, after.previous);
  }

  class DhtState {
    const crc: Checksum
    var tokenSecret: Bytes
    var oldTokenSecret: Bytes

    /** What the peer storage has been told, in order: the peers announced and under which info hash. */
    var announced: seq<(Id, SocketAddr)>

    ghost function View(): Secrets
      reads this
    {
      Secrets(tokenSecret, oldTokenSecret)
    }

    constructor (crc: Checksum, secret: Bytes)
      ensures View() == Secrets(secret, secret) && this.crc == crc && announced == []
    {
      this.crc := crc;
      announced := [];
      tokenSecret := secret;
      oldTokenSecret := secret;
    }

    method RotateTokenSecrets(newSecret: Bytes)
      modifies `tokenSecret, `oldTokenSecret
      ensures View() == Rotated(old(View()), newSecret)
    {
      oldTokenSecret := tokenSecret;
      tokenSecret := newSecret;
    }

    /** The token of a get_peers reply. */
    method IssueToken(remote: SocketAddr) returns (token: Octets4)
      ensures token == CalculateToken(crc, remote, View().current)
      ensures Accepts(crc, View(), remote, token)
    {
      token := CalculateToken(crc, remote, tokenSecret);
    }

    /**
      An announcement: if its token is good, the sender's address, with its own port or
      the stated one, is recorded under the info hash; if not, nothing is.
     */
    method AnnouncePeer(remote: SocketAddr, infoHash: Id, token: Bytes, port: bv16, impliedPort: Option<bool>)
      returns (accepted: bool)
      modifies `announced
      ensures accepted <==> Accepts(crc, View(), remote, token)
      ensures !accepted ==> announced == old(announced)
      ensures accepted ==>
                && |announced| == |old(announced)| + 1 && announced[..|old(announced)|] == old(announced)
                && var (hash, peer) := announced[|old(announced)|];
                && hash == infoHash && SameIp(peer, remote)
                && peer.port == if impliedPort == Some(true) then remote.port else port
    {
      accepted := token == CalculateToken(crc, remote, tokenSecret)
               || token == CalculateToken(crc, remote, oldTokenSecret);
      if accepted {
        var peer := if impliedPort == Some(true) then remote else remote.(port := port);
        announced := announced + [(infoHash, peer)];
      }
    }
  }
}
