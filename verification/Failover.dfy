/** Peer failover as it runs: the peers' cooldown words, the cursor and the counters are updated in
    place, and the client's stream is read only once a peer has answered. */
module Failover {
  import opened Basics
  import opened Wrappers
  import opened Bytes
  import opened Cooldown
  import opened Forwarding
  import opened ForwardingLaws

  /** The client's socket: the bytes nobody has read yet. */
  class ClientStream {
    var unread: Bytes

    constructor (bytes: Bytes)
      ensures unread == bytes
    {
      unread := bytes;
    }

    method Read(n: nat) returns (bytes: Bytes)
      requires n <= |unread|
      modifies this
      ensures bytes == old(unread)[..n] && unread == old(unread)[n..]
    {
      bytes := unread[..n];
      unread := unread[n..];
    }
  }

  class RouteFailover {
    const peers: seq<FailoverPeer>
    const backoff: Backoff
    var cursor: nat
    var replays: nat
    var exhausted: nat
    var localFallbacks: nat

    constructor (peers: seq<FailoverPeer>, backoff: Backoff)
      requires peers != [] && forall i, j :: 0 <= i < j < |peers| ==> peers[i] != peers[j]
      ensures this.peers == peers && this.backoff == backoff && Valid()
      ensures Contents() == State(Words(), 0, 0, 0, 0)
    {
      this.peers := peers;
      this.backoff := backoff;
      cursor, replays, exhausted, localFallbacks := 0, 0, 0, 0;
    }

    ghost predicate Valid() {
      peers != [] && forall i, j :: 0 <= i < j < |peers| ==> peers[i] != peers[j]
    }

    function Words(): (r: seq<nat>)
      reads peers
      ensures |r| == |peers| && forall i :: 0 <= i < |r| ==> r[i] == peers[i].cooldown
    {
      seq(|peers|, i requires 0 <= i < |peers| reads peers => peers[i].cooldown)
    }

    function Contents(): State
      reads this, peers
    {
      State(Words(), cursor, replays, exhausted, localFallbacks)
    }

    method GiveUp(mode: Mode, handshake: nat, elapsed: nat, ghost tries: seq<Try>, ghost stream: Bytes)
      returns (result: Forwarded)
      requires Valid()
      modifies this
      ensures var o := ForwardingLaws.GiveUp(old(Contents()), mode, handshake, tries, stream, elapsed);
        result == o.result && Contents() == o.state
    {
      if mode.Down? {
        exhausted := exhausted + 1;
        return Done(Some(UpstreamConnect));
      }
      localFallbacks := localFallbacks + 1;
      return ServeLocally(if elapsed <= handshake then handshake - elapsed else 0);
    }

    method Select(mode: Mode, now: nat) returns (candidates: seq<nat>)
      requires Valid()
      modifies this`cursor
      ensures candidates == Candidates(old(Words()), old(cursor), mode, now)
      ensures Contents() == Advanced(old(Contents()), mode)
      ensures forall i :: 0 <= i < |candidates| ==> candidates[i] < |peers|
      ensures forall i, j :: 0 <= i < j < |candidates| ==> candidates[i] != candidates[j]
    {
      candidates := Candidates(Words(), cursor, mode, now);
      CandidatesInRange(Words(), cursor, mode, now);
      CandidatesDistinct(Words(), cursor, mode, now);
      if !mode.Spill? && |peers| != 1 {
        cursor := cursor + 1;
      }
    }

    /** One attempt with its fair share of the time, and what it does to the peer's cooldown. */
    method TryOne(peer: nat, count: nat, budget: nat, prefix: Bytes, reaction: Reaction, tries: seq<Try>, elapsed: nat,
                  clock: nat)
      returns (t: Try)
      requires Valid() && peer < |peers| && elapsed < budget
      modifies peers[peer]
      ensures Round(Words(), tries + [t], elapsed + t.took, t.answered) ==
        Tried(Round(old(Words()), tries, elapsed, false), peer, count, budget, prefix, reaction, backoff, clock)
      ensures t.answered ==> t.received == prefix
    {
      hide AfterFailure, Attempt, Share;
      t := Attempt(peer, prefix, Share(budget - elapsed, count, |tries|), reaction);
      if t.answered {
        peers[peer].ClearCooldown();
      } else {
        peers[peer].RecordFailure(backoff.minNs, backoff.maxNs, clock + elapsed + t.took);
      }
      assert Words() == old(Words())[peer := peers[peer].cooldown];
    }

    /** The loop over the candidates. */
    method Attempts(candidates: seq<nat>, budget: nat, prefix: Bytes, reactions: nat -> Reaction, spent: nat,
                    clock: nat)
      returns (tries: seq<Try>, elapsed: nat, answered: bool)
      requires Valid() && forall i :: 0 <= i < |candidates| ==> candidates[i] < |peers|
      modifies this`replays, peers
      ensures var r := TryPeers(Round(old(Words()), [], spent, false), candidates, |candidates|, budget, prefix,
                                reactions, backoff, clock);
        && tries == r.tries && elapsed == r.elapsed && answered == r.answered && Words() == r.words
        && (answered ==> tries != [] && tries[|tries| - 1].received == prefix)
        && replays == old(replays) + (if r.tries == [] then 0 else |r.tries| - 1)
    {
      hide Tried, Words;
      tries, elapsed, answered := [], spent, false;
      ghost var goal := TryPeers(Round(Words(), [], spent, false), candidates, |candidates|, budget, prefix, reactions,
                                 backoff, clock);
      var attempt := 0;
      while attempt < |candidates| && elapsed < budget && !answered
        invariant attempt <= |candidates| && |tries| == attempt
        invariant goal == TryPeers(Round(Words(), tries, elapsed, answered), candidates[attempt..], |candidates|,
                                   budget, prefix, reactions, backoff, clock)
        invariant answered ==> tries != [] && tries[|tries| - 1].received == prefix
        invariant replays == old(replays) + (if attempt == 0 then 0 else attempt - 1)
        decreases |candidates| - attempt
      {
        if attempt > 0 {
          replays := replays + 1;
        }
        assert candidates[attempt..][1..] == candidates[attempt + 1..];
        var t := TryOne(candidates[attempt], |candidates|, budget, prefix, reactions(attempt), tries, elapsed, clock);
        tries, elapsed, answered := tries + [t], elapsed + t.took, t.answered;
        attempt := attempt + 1;
      }
    }

    /** After a peer's first byte: read the hello, then copy everything else to the peer. */
    method Commit(client: ClientStream, prefix: Bytes, helloLen: nat, w: World)
      returns (error: Option<ErrorKind>, received: Bytes)
      requires helloLen <= |client.unread|
      modifies client
      ensures !w.readOk ==> error == Some(StreamError) && received == prefix
      ensures !w.readOk ==> client.unread == old(client.unread)[Min(w.lost, helloLen)..]
      ensures w.readOk ==>
        var taken := if w.tunnelOk then |old(client.unread)| else Min(helloLen + w.carried, |old(client.unread)|);
        && error == (if w.tunnelOk then None else Some(StreamError))
        && received == prefix + old(client.unread)[helloLen..taken] && client.unread == old(client.unread)[taken..]
    {
      if !w.readOk {
        var part := client.Read(Min(w.lost, helloLen));
        return Some(StreamError), prefix;
      }
      var hello := client.Read(helloLen);
      var rest := client.Read(if w.tunnelOk then |client.unread| else Min(w.carried, |client.unread|));
      return if w.tunnelOk then None else Some(StreamError), prefix + rest;
    }

    /** The end of a round: hand the connection over, or give up. */
    method Conclude(client: ClientStream, round: seq<Try>, elapsed: nat, answered: bool, prefix: Bytes,
                    ghost header: Bytes,
                    helloLen: nat, mode: Mode, handshake: nat, w: World, ghost st: State, ghost r: Round)
      returns (result: Forwarded, tries: seq<Try>)
      requires Valid() && helloLen <= |client.unread| && prefix == header + client.unread[..helloLen]
      requires round == r.tries && elapsed == r.elapsed && answered == r.answered
      requires answered ==> round != [] && round[|round| - 1].received == prefix
      requires Contents() == st.(words := r.words, replays := st.replays + (if r.tries == [] then 0 else |r.tries| - 1))
      modifies client, this
      ensures var o := Concluded(st, r, old(client.unread), helloLen, mode, handshake, header, w);
        && result == o.result && tries == o.tries && elapsed == o.elapsed
        && client.unread == o.unread && Contents() == o.state
    {
      tries := round;
      if answered {
        ghost var stream := client.unread;
        var error, received := Commit(client, prefix, helloLen, w);
        ghost var taken := |stream| - |client.unread|;
        assert w.readOk ==> header + stream[..helloLen] + stream[helloLen..taken] == header + stream[..taken];
        tries := tries[|tries| - 1 := tries[|tries| - 1].(received := received)];
        assert !w.readOk ==> tries == round;
        result := Done(error);
      } else {
        result := GiveUp(mode, handshake, elapsed, tries, client.unread);
      }
    }

    method ForwardToPeers(client: ClientStream, complete: bool, helloLen: nat, mode: Mode, handshake: nat,
                          header: Bytes, w: World, clock: nat)
      returns (result: Forwarded, tries: seq<Try>, elapsed: nat)
      requires Valid()
      modifies client, this, peers
      ensures var o := Forward(old(Contents()), old(client.unread), complete, helloLen, mode, handshake, header, w,
                               backoff, clock);
        && result == o.result && tries == o.tries && elapsed == o.elapsed
        && client.unread == o.unread && Contents() == o.state
    {
      hide Concluded, TryPeers, Candidates, Budget, Words;
      tries, elapsed := [], 0;
      if !complete || helloLen == 0 {
        if mode.Down? {
          return Done(Some(UpstreamConnect)), [], 0;
        }
        result := GiveUp(mode, handshake, 0, [], client.unread);
        return;
      }
      var budget := Budget(mode, handshake);
      var candidates := Select(mode, clock);
      if candidates == [] {
        result := GiveUp(mode, handshake, 0, [], client.unread);
        return;
      }
      if !Peeked(w, budget, client.unread, helloLen) {
        elapsed := Min(w.peekTook, budget);
        result := GiveUp(mode, handshake, elapsed, [], client.unread);
        return;
      }
      var prefix := header + client.unread[..helloLen];
      ghost var st := Contents();
      ghost var round := TryPeers(Round(Words(), [], w.peekTook, false), candidates, |candidates|, budget, prefix,
                                  w.reactions, backoff, clock);
      var answered;
      tries, elapsed, answered := Attempts(candidates, budget, prefix, w.reactions, w.peekTook, clock);
      result, tries := Conclude(client, tries, elapsed, answered, prefix, header, helloLen, mode, handshake, w, st,
                                round);
    }

    /** Connect to the local upstream while the hello is unread; a failure goes to the peers. */
    method ConnectOrForward(client: ClientStream, c: Connection, left: nat, header: Bytes, connect: Connect, w: World,
                            clock: nat,
                            ghost o: Outcome, ghost route: Route)
      returns (end: End, tries: seq<Try>, elapsed: nat)
      requires Valid() && route.backoff == backoff
      requires o.result == ServeLocally(left) && o.state == Contents() && o.unread == client.unread
        && o.elapsed <= clock
      modifies client, this, peers
      ensures var s := ForwardingLaws.ConnectOrForward(o, c, route, header, connect, w, clock - o.elapsed);
        end == s.end && tries == s.second && o.elapsed + elapsed == s.elapsed && client.unread == s.unread
    {
      hide Forward, Contents;
      var limit := ConnectLimit(c, left);
      elapsed := Min(connect.took, limit);
      var remaining := if elapsed <= left then left - elapsed else 0;
      if connect.ok && connect.took <= limit {
        return Here(remaining), [], elapsed;
      }
      if !MayUsePeers(c) {
        return Over, [], elapsed;
      }
      var result, spent;
      result, tries, spent := ForwardToPeers(client, c.complete, c.helloLen, Down, remaining, header, w,
                                             clock + elapsed);
      return Over, tries, elapsed + spent;
    }

    /** The failover part of handling a connection. */
    method Handle(client: ClientStream, c: Connection, route: Route, header: Bytes, w1: World, connect: Connect,
                  w2: World, clock: nat)
      returns (s: Served)
      requires Valid() && route.backoff == backoff
      modifies client, this, peers
      ensures s == Serve(old(Contents()), c, route, old(client.unread), header, w1, connect, w2, clock)
      ensures client.unread == s.unread
    {
      hide Forward;
      ghost var o := FirstRound(Contents(), c, route, client.unread, header, w1, clock);
      var left, first, elapsed := c.handshake, [], 0;
      match Decide(c.ingress, c.suspended, route.locallyDown, route.drain, route.spill) {
        case Refuse =>
          return Served(Over, [], [], client.unread, 0);
        case Local =>
        case ToPeers(mode) =>
          var result;
          result, first, elapsed := ForwardToPeers(client, c.complete, c.helloLen, mode, c.handshake, header, w1,
                                                   clock);
          if result.Done? {
            return Served(Over, first, [], client.unread, elapsed);
          }
          left := result.left;
      }
      if !ConnectsEarly(c) {
        return Served(Here(left), first, [], client.unread, elapsed);
      }
      var end, second, spent := ConnectOrForward(client, c, left, header, connect, w2, clock + elapsed, o, route);
      return Served(end, first, second, client.unread, elapsed + spent);
    }
  }
}
