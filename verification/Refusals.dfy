/** That a driver's refusal is final: whatever is polled or published afterwards, on any transport. */
module Refusals {
  import opened Wrappers
  import opened Bytes
  import opened ConnSpec
  import opened Handshake
  import opened DriverSpec
  import opened ByteMachine
  import opened Polls
  import opened Transcripts

  lemma UnmovedTwice(c: Conn, c1: Conn, c2: Conn)
    requires Unmoved(c, c1) && Unmoved(c1, c2)
    ensures Unmoved(c, c2)
  {}

  lemma UnmovedSelf(c: Conn)
    ensures Unmoved(c, c)
  {}

  /** On a dead connection there is no turn to take, and the reply moves nothing. */
  lemma DeadReply(cfg: Config, prev: State, c: Conn, net: Net)
    requires Inv(cfg, c) && Dead(cfg, c) && prev == c.state
    ensures var c' := Reply(cfg, prev, c, net).0; Dead(cfg, c') && Unmoved(c, c')
  {
    hide Dead, Inv, Feed;
    DeadStaysDead(cfg, c, WritePongCall(23));
    assert !ReadyTurn(cfg.role, prev, c.state);
  }

  lemma {:induction false} DeadDrain(cfg: Config, c: Conn, net: Net, input: bytes)
    requires DriverInv(cfg, c) && Dead(cfg, c)
    ensures var c' := DrainLoop(cfg, c, net, input).0; Dead(cfg, c') && Unmoved(c, c')
    decreases |input|
  {
    hide Dead, Feed, Reply, Fed, DriverInv, Unmoved;
    UnmovedSelf(c);
    if input != [] {
      DeadTurn(cfg, c, net, input);
      FeedProgress(cfg, c, input);
      FeedIsFed(cfg, c, input);
      var (c1, fed) := Feed(cfg, c, input);
      if fed.Ok? {
        ReplyInv(cfg, c.state, c1, net);
        var (c2, net2, replied) := Reply(cfg, c.state, c1, net);
        if replied == Ok(false) {
          DeadDrain(cfg, c2, net2, input[fed.value..]);
          UnmovedTwice(c, c2, DrainLoop(cfg, c2, net2, input[fed.value..]).0);
        }
      }
    }
  }

  lemma DeadTurn(cfg: Config, c: Conn, net: Net, input: bytes)
    requires DriverInv(cfg, c) && Dead(cfg, c)
    ensures var c1 := Feed(cfg, c, input).0;
            var c2 := Reply(cfg, c.state, c1, net).0;
            Dead(cfg, c1) && Unmoved(c, c1) && Dead(cfg, c2) && Unmoved(c, c2)
  {
    hide Dead, Feed, Reply, Fed;
    DeadStaysDead(cfg, c, FeedCall(input));
    FeedInv(cfg, c, input);
    DeadReply(cfg, c.state, Feed(cfg, c, input).0, net);
  }

  /** A drain that ends in a fatal error leaves a dead connection. */
  lemma {:induction false} FatalDrain(cfg: Config, c: Conn, net: Net, input: bytes)
    requires DriverInv(cfg, c)
    ensures var (c', _, r) := DrainLoop(cfg, c, net, input);
            r.Err? && Fatal(r.error) ==> Dead(cfg, c')
    decreases |input|
  {
    hide Dead, Feed, Reply, Fed, DriverInv;
    if input != [] {
      FeedProgress(cfg, c, input);
      FeedIsFed(cfg, c, input);
      var (c1, fed) := Feed(cfg, c, input);
      match fed
      case Err(e) =>
        if Fatal(e) {
          FatalIsDead(cfg, c, input);
        }
      case Ok(n) =>
        ReplyInv(cfg, c.state, c1, net);
        ReplyErrors(cfg, c.state, c1, net);
        var (c2, net2, replied) := Reply(cfg, c.state, c1, net);
        if replied == Ok(false) {
          FatalDrain(cfg, c2, net2, input[n..]);
        }
    }
  }

  /** A reply fails only for its transport. */
  lemma ReplyErrors(cfg: Config, prev: State, c: Conn, net: Net)
    requires Fed(cfg, prev, c)
    ensures var r := Reply(cfg, prev, c, net).2; r.Err? ==> !Fatal(r.error)
  {}

  lemma FatalPoll(cfg: Config, d: Drv)
    requires Steady(cfg, d)
    ensures var (d', r) := Poll(cfg, d); r.Err? && Fatal(r.error) ==> Dead(cfg, d'.conn)
  {
    hide Dead, Poll, PollAsync, DrainLoop, DriverInv;
    PollsAgree(cfg, d);
    if d.rx != [] {
      FatalDrain(cfg, d.conn, d.net, d.rx);
    } else {
      var (net, got) := Receive(d.net, RX_SIZE);
      if got.Ok? {
        FatalDrain(cfg, d.conn, net, d.rx + got.value);
      }
    }
  }

  lemma DeadPoll(cfg: Config, d: Drv)
    requires Steady(cfg, d) && Dead(cfg, d.conn)
    ensures var c' := Poll(cfg, d).0.conn; Dead(cfg, c') && Unmoved(d.conn, c')
  {
    hide Dead, Poll, PollAsync, DrainLoop, DriverInv;
    PollsAgree(cfg, d);
    if d.rx != [] {
      DeadDrain(cfg, d.conn, d.net, d.rx);
    } else {
      var (net, got) := Receive(d.net, RX_SIZE);
      if got.Ok? {
        DeadDrain(cfg, d.conn, net, d.rx + got.value);
      }
    }
  }

  lemma {:induction false} DeadActions(cfg: Config, d: Drv, actions: seq<Action>)
    requires Steady(cfg, d) && Dead(cfg, d.conn)
    ensures Unmoved(d.conn, RunActions(cfg, d, actions).conn)
    decreases |actions|
  {
    hide Dead, Poll, DriverPublish, DriverInv;
    if actions != [] {
      var d1 := Act(cfg, d, actions[0]);
      if actions[0].PollAction? {
        DeadPoll(cfg, d);
        PollKeepsSteady(cfg, d);
      } else {
        PublishKeepsConn(cfg, d, actions[0].topic, actions[0].payload);
      }
      DeadActions(cfg, d1, actions[1..]);
      UnmovedTwice(d.conn, d1.conn, RunActions(cfg, d1, actions[1..]).conn);
    }
  }

  /**
   Once a poll has been refused for what the peer sent, no later polls and publishes, on any
   transport, advance the handshake, change the table or queue a PONG.
   */
  lemma DriverFailureIsPermanent(cfg: Config, d: Drv, actions: seq<Action>)
    requires Steady(cfg, d)
    ensures var (d', r) := Poll(cfg, d);
            r.Err? && Fatal(r.error) ==> Unmoved(d'.conn, RunActions(cfg, d', actions).conn)
  {
    hide Dead, Poll, RunActions, DriverInv, Unmoved;
    FatalPoll(cfg, d);
    PollKeepsSteady(cfg, d);
    var (d', r) := Poll(cfg, d);
    if r.Err? && Fatal(r.error) {
      DeadActions(cfg, d', actions);
    }
  }
}
