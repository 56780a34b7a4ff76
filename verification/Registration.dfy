/**
 Channels registered to selectors: the selectors' key maps, their epoll sets and the channels' key maps
 describe the same registrations, whatever is registered, cancelled, selected and closed.
 */
module Registration {
  import opened Options

  const EPOLLIN := 1

  /**
     An event that epoll reports for a descriptor: a mask whose lowest bit is EPOLLIN, and the number of bytes
     that the descriptor then has to read, which the system may fail to give.
   */
  datatype Event = Event(fd: int, events: nat, available: Option<nat>)
  {
    /** Readable with nothing to read: the end of a stream, or a broken one. */
    predicate Ended() {
      events % (2 * EPOLLIN) == EPOLLIN && (available.None? || available.value == 0)
    }
  }

  /** What one wait brings: it is interrupted, or it reports some descriptors, or none in time. */
  datatype Wait = Interrupted | Ready(events: seq<Event>)

  const EVENT_SIZE := 64

  /** The objects of a run; every key that was ever made is in `keys`. */
  datatype World = World(channels: set<Channel>, selectors: set<Selector>, keys: set<SelectionKey>)

  class Channel {
    const fd: int
    /** A stream can reach its end; a server socket cannot. */
    const stream: bool
    var active: bool
    var open: bool
    var keys: map<Selector, SelectionKey>

    constructor (fd: int, stream: bool)
      ensures this.fd == fd && this.stream == stream && active && open && keys == map[]
    {
      this.fd, this.stream, active, open, keys := fd, stream, true, true, map[];
    }

    /**
       Called by a selector in the middle of a select: a stream closes itself if and only if it is reported as
       readable but has nothing to read.
     */
    method UpdateStatus(ghost w: World, event: Event) returns (ghost closed: set<Channel>)
      requires Agreement(w) && ClosedNowhere(w) && this in w.channels && active && event.fd == fd
      modifies this, w.selectors`keys, w.selectors`interest, w.keys`channel
      ensures Agreement(w) && ClosedNowhere(w) && closed <= {this} && AreThoseThatEnd(w, closed, [event])
      ensures if closed == {} then ViewOf(w) == old(ViewOf(w)) else WentDown(old(ViewOf(w)), ViewOf(w), this)
    {
      hide Agreement, ClosedNowhere;
      closed := {};
      OnlyOfItsDescriptor(w, this);
      if stream && event.Ended() {
        InterestIsKeys(w);
        CloseChannel(w);
        InterestIsKeys(w);
        closed := {this};
      }
    }

    method KeyFor(selector: Selector) returns (key: SelectionKey?)
      ensures key == if selector in keys then keys[selector] else null
    {
      key := null;
      if selector in keys {
        key := keys[selector];
      }
    }

    /** Cancels the present registration with the selector, if there is one. */
    method CancelFor(ghost w: World, selector: Selector)
      requires Agreement(w) && ClosedNowhere(w) && this in w.channels && selector in w.selectors
      modifies `keys, selector`keys, selector`interest, w.keys`channel
      ensures Agreement(w) && ClosedNowhere(w) && keys == old(keys) - {selector}
      ensures selector.keys == old(selector.keys) - {fd} && selector.interest == old(selector.interest) - {fd}
      ensures old(selector !in keys) ==> fd !in old(selector.interest)
      ensures forall k :: k in w.keys ==>
                k.channel == if old(selector in keys && keys[selector] == k) then null else old(k.channel)
    {
      hide Agreement;
      var key := KeyFor(selector);
      if key != null {
        RegisteredByChannel(w, this, selector);
        var cancelled := key.Cancel(w);
      } else {
        UnregisteredOnBothSides(w, this, selector);
      }
    }

    /**
       Registers the channel, in place of its present registration with the selector if it has one. The
       descriptor of a closed channel is refused after the selector has entered the key: then, and only then,
       the maps no longer agree.
     */
    method RegisterTo(ghost w: World, selector: Selector) returns (ok: bool, key: SelectionKey, ghost w': World)
      requires Agreement(w) && ClosedNowhere(w) && this in w.channels && selector in w.selectors
      modifies `keys, selector`keys, selector`interest, w.keys`channel
      ensures fresh(key) && w' == w.(keys := w.keys + {key}) && key.channel == this && key.selections == 0
      ensures key.selector == selector && (ok <==> open)
      ensures Agreement(w') <==> ok
      ensures keys == if ok then old(keys)[selector := key] else map[]
      ensures selector.keys == old(selector.keys)[fd := key]
      ensures selector.interest == if ok then old(selector.interest) + {fd} else old(selector.interest)
      ensures forall k :: k in w.keys ==>
                k.channel == if old(selector in keys && keys[selector] == k) then null else old(k.channel)
    {
      hide Agreement, ClosedNowhere;
      RegisteredIsOpen(w, this);
      CancelFor(w, selector);
      key := new SelectionKey(selector, this);
      ok := key.Enrol(w);
      w' := w.(keys := w.keys + {key});
      Replaced(old(keys), selector, key);
    }

    /** Cancels every registration, then closes the descriptor; a closed channel is left alone. */
    method CloseChannel(ghost w: World)
      requires Agreement(w) && ClosedNowhere(w) && this in w.channels
      modifies this, w.selectors`keys, w.selectors`interest, w.keys`channel
      ensures Agreement(w) && ClosedNowhere(w) && !active && keys == map[]
      ensures forall s :: s in w.selectors ==> s.keys == old(s.keys) - {fd}
      ensures forall k :: k in w.keys ==>
                k.channel == if old(k.channel == this && k.selections == 0) then null else old(k.channel)
    {
      hide Agreement;
      RegisteredEverywhere(w, this);
      if !active {
        return;
      }
      active := false;
      CancelAll(w);
      open := false;
    }

    method CancelAll(ghost w: World)
      requires Agreement(w) && this in w.channels && open
      modifies `keys, w.selectors`keys, w.selectors`interest, w.keys`channel
      ensures Agreement(w) && keys == map[]
      ensures forall s :: s in w.selectors ==> s.keys == old(s.keys) - {fd}
      ensures forall k :: k in w.keys ==>
                k.channel == if old(k.channel == this && k.selections == 0) then null else old(k.channel)
    {
      hide Agreement;
      RegisteredEverywhere(w, this);
      var list := keys.Values;
      while list != {}
        invariant Agreement(w)
        invariant forall k :: k in list ==> k in w.keys && k.channel == this && k.selections == 0
        invariant forall s :: s in keys ==> keys[s] in list && keys[s].selector == s
        invariant forall s :: s in w.selectors ==> s.keys == if s in keys then old(s.keys) else old(s.keys) - {fd}
        invariant forall k :: k in w.keys ==>
                    k.channel == if k !in list && old(k.channel == this && k.selections == 0) then null else old(k.channel)
        decreases list
      {
        var key :| key in list;
        list := list - {key};
        CancelOne(w, key);
      }
      assert keys == map[];
    }

    method CancelOne(ghost w: World, key: SelectionKey)
      requires Agreement(w) && this in w.channels && open
      requires key in w.keys && key.channel == this && key.selections == 0
      modifies `keys, w.selectors`keys, w.selectors`interest, w.keys`channel
      ensures Agreement(w) && old(key.selector in keys) && keys == old(keys) - {key.selector}
      ensures forall s :: s in w.selectors ==> s.keys == if s == key.selector then old(s.keys) - {fd} else old(s.keys)
      ensures forall k :: k in w.keys ==> k.channel == if k == key then null else old(k.channel)
    {
      hide Agreement;
      RegisteredOnBothSides(w, key);
      var cancelled := key.Cancel(w);
    }
  }

  class SelectionKey {
    const selector: Selector
    var channel: Channel?
    var events: int
    /** How often this key has been selected. */
    ghost var selections: nat

    constructor (selector: Selector, channel: Channel)
      ensures this.selector == selector && this.channel == channel && selections == 0
    {
      this.selector, this.channel, events, selections := selector, channel, 0, 0;
    }

    /** Enters a new key for a channel that has none for the selector. */
    method Enrol(ghost w: World) returns (ok: bool)
      requires Agreement(w) && this !in w.keys && selector in w.selectors && selections == 0
      requires channel != null && channel in w.channels && selector !in channel.keys
      modifies selector`keys, selector`interest, Watched()`keys
      ensures ok <==> channel.open
      ensures Agreement(w.(keys := w.keys + {this})) <==> ok
      ensures channel.keys == if ok then old(channel.keys)[selector := this] else old(channel.keys)
      ensures selector.keys == old(selector.keys)[channel.fd := this]
      ensures selector.interest == if ok then old(selector.interest) + {channel.fd} else old(selector.interest)
    {
      hide Agreement;
      UnregisteredOnBothSides(w, channel, selector);
      ok := selector.Put(this, channel.fd, channel.open);
      if ok {
        channel.keys := channel.keys[selector := this];
        AfterEntering(Entry(w, channel, this));
      } else {
        HalfEntered(w.(keys := w.keys + {this}), this, channel);
      }
    }

    ghost function Watched(): (cs: set<Channel>)
      reads this
    {
      if channel == null then {} else {channel}
    }

    /**
       Cancels a key that has not been selected; a cancelled key is left alone. The registration goes from
       the selector, its epoll set and the channel.
     */
    method Cancel(ghost w: World) returns (ok: bool)
      requires Agreement(w) && this in w.keys
      requires channel != null ==> selections == 0 && channel.open
      modifies `channel, selector`keys, selector`interest, Watched()`keys
      ensures ok && Agreement(w) && channel == null
      ensures old(channel) == null ==> selector.keys == old(selector.keys) && selector.interest == old(selector.interest)
      ensures old(channel) != null ==>
                && old(channel).keys == old(channel.keys) - {selector}
                && selector.keys == old(selector.keys) - {old(channel).fd}
                && selector.interest == old(selector.interest) - {old(channel).fd}
    {
      hide Agreement;
      ok := true;
      if channel != null {
        var c: Channel := channel;
        RegisteredOnBothSides(w, this);
        ok := selector.Remove(c.fd, c.open);
        if ok {
          c.keys := c.keys - {selector};
          channel := null;
          AfterLeaving(Entry(w, c, this));
        }
      }
    }
  }

  class Selector {
    var keys: map<int, SelectionKey>
    var pending: seq<SelectionKey>
    var interest: set<int>
    var enabled: bool

    constructor ()
      ensures keys == map[] && pending == [] && interest == {} && enabled
    {
      keys, pending, interest, enabled := map[], [], {}, true;
    }

    /** A wait reports some of the descriptors in the epoll set, each once, or it is interrupted. */
    method EpollWait() returns (wait: Wait)
      ensures wait.Ready? ==> Distinct(wait.events) && Descriptors(wait.events) <= interest
    {
      var events, rest := [], interest;
      while rest != {} && |events| < EVENT_SIZE
        invariant Distinct(events) && Descriptors(events) <= interest && Descriptors(events) !! rest
        decreases rest
      {
        NotEmpty(rest);
        var fd :| fd in rest;
        rest := rest - {fd};
        if * {
          var reported, available := *, *;
          DescriptorsAppend(events, Event(fd, reported, available));
          events := events + [Event(fd, reported, available)];
        }
      }
      if * {
        wait := Interrupted;
      } else {
        wait := Ready(events);
      }
    }

    /** Takes the descriptor out of the epoll set and the key out of both maps. */
    method Unlist(ghost w: World, fd: int) returns (key: SelectionKey, c: Channel)
      requires Agreement(w) && ClosedNowhere(w) && this in w.selectors && fd in interest
      modifies `keys, `interest, w.channels`keys, w.keys`selections
      ensures Agreement(w) && ClosedNowhere(w) && Took(old(ViewOf(w)), ViewOf(w), this, {fd}, {})
      ensures old(fd in keys && keys[fd] == key) && key in w.keys
      ensures c in w.channels && c.fd == fd && c.active
    {
      hide Agreement, ViewOf, Took;
      RegisteredBySelector(w, this, fd);
      interest := interest - {fd};
      key := keys[fd];
      c := key.channel;
      keys := keys - {fd};
      c.keys := c.keys - {this};
      key.selections := key.selections + 1;
      AfterLeaving(Entry(w, c, key));
      AfterUnlisting(Entry(w, c, key));
    }

    /**
       Takes a reported descriptor and its key out of this selector, lets the channel look at its status, and
       makes the key pending. A descriptor without a key is passed over.
     */
    method TakeEvent(ghost w: World, event: Event) returns (ghost closed: set<Channel>)
      requires Agreement(w) && ClosedNowhere(w) && this in w.selectors && event.fd in interest
      modifies w.selectors`keys, w.selectors`interest, `pending
      modifies w.channels, w.keys`channel, w.keys`events, w.keys`selections
      ensures Agreement(w) && ClosedNowhere(w) && old(event.fd in keys)
      ensures closed <= w.channels && AreThoseThatEnd(w, closed, [event])
      ensures pending == old(pending) + [old(keys[event.fd])]
      ensures Took(old(ViewOf(w)), ViewOf(w), this, {event.fd}, closed)
      ensures ReportedOf(w) == old(ReportedOf(w))[old(keys[event.fd]) := event.events]
    {
      hide *;
      RegisteredBySelector(w, this, event.fd);
      closed := {};
      if event.fd in keys {
        ghost var v := ViewOf(w);
        var key, c := Unlist(w, event.fd);
        ghost var v' := ViewOf(w);
        closed := c.UpdateStatus(w, event);
        TookAndWentDown(v, v', ViewOf(w), this, c, closed);
        key.events := event.events;
        OneReported(Entry(w, c, key));
        pending := pending + [key];
      }
    }

    /**
       Every reported descriptor in turn: exactly the keys of these descriptors become pending, in order, and
       streams among them may close.
     */
    method TakeEvents(ghost w: World, events: seq<Event>) returns (ghost closed: set<Channel>)
      requires Agreement(w) && ClosedNowhere(w) && this in w.selectors
      requires Distinct(events) && Descriptors(events) <= interest
      modifies w.selectors`keys, w.selectors`interest, `pending
      modifies w.channels, w.keys`channel, w.keys`events, w.keys`selections
      ensures Agreement(w) && ClosedNowhere(w) && closed <= w.channels
      ensures Took(old(ViewOf(w)), ViewOf(w), this, Descriptors(events), closed) && AreThoseThatEnd(w, closed, events)
      ensures forall i :: 0 <= i < |events| ==> events[i].fd in old(keys)
      ensures pending == old(pending) + KeysOf(old(keys), events)
      ensures ReportedOf(w) == WithReports(old(ReportedOf(w)), old(keys), events)
    {
      hide Agreement, ClosedNowhere, Descriptors, Distinct, KeysOf, AreThoseThatEnd, ViewOf, Took, ReportedOf, WithReports;
      ghost var start := ViewOf(w);
      Seen(w);
      TakenNone(w, this, keys, events);
      NoReports(ReportedOf(w), keys, events);
      closed := {};
      var i := 0;
      while i < |events|
        invariant 0 <= i <= |events| && Agreement(w) && ClosedNowhere(w) && closed <= w.channels
        invariant Took(start, ViewOf(w), this, Descriptors(events[..i]), closed) && AreThoseThatEnd(w, closed, events[..i])
        invariant keys == old(keys) - Descriptors(events[..i]) && interest == old(interest) - Descriptors(events[..i])
        invariant forall j :: 0 <= j < i ==> events[j].fd in old(keys)
        invariant pending == old(pending) + KeysOf(old(keys), events[..i])
        invariant ReportedOf(w) == WithReports(old(ReportedOf(w)), old(keys), events[..i])
      {
        TakenSoFar(events, i);
        ghost var v := ViewOf(w);
        ghost var closing := TakeEvent(w, events[i]);
        TookMore(start, v, ViewOf(w), this, Descriptors(events[..i]), closed, events[i].fd, closing);
        TookBySelector(w, start, this, Descriptors(events[..i + 1]), closed + closing);
        CloseMore(w, closed, events, i, closing);
        KeysAppend(old(keys), events, i);
        ReportsAppend(old(ReportedOf(w)), old(keys), events, i);
        closed := closed + closing;
        i := i + 1;
      }
      assert events[..i] == events;
    }

    /**
       Waits until descriptors are reported, the timeout has run down or the selector is cancelled; `rounds`
       bounds the number of waits, and may be any number. An interrupted wait does not count against the timeout.
     */
    method WaitForEvents(timeout: int, rounds: nat) returns (events: seq<Event>, ghost waits: seq<Wait>)
      ensures Distinct(events) && Descriptors(events) <= interest
      ensures events != [] ==> waits != [] && waits[|waits| - 1] == Ready(events) && AllQuiet(waits[..|waits| - 1])
      ensures events == [] ==> AllQuiet(waits) && (!enabled || |waits| == rounds || Elapsed(waits) == timeout)
    {
      hide AllQuiet, Elapsed;
      NoWaits();
      events, waits := [], [];
      var left, round := timeout, 0;
      while enabled && left != 0 && round < rounds
        invariant round == |waits| <= rounds && AllQuiet(waits) && left == timeout - Elapsed(waits)
        decreases rounds - round
      {
        round := round + 1;
        var wait := EpollWait();
        OneMoreWait(waits, wait);
        waits := waits + [wait];
        match wait {
          case Interrupted =>
          case Ready(reported) =>
            if reported != [] {
              events := reported;
              return;
            }
            left := left - 1;
        }
      }
    }

    /** A select takes the events of its last wait, or none. */
    method Select(ghost w: World, timeout: int, rounds: nat)
      returns (selected: bool, ghost events: seq<Event>, ghost waits: seq<Wait>, ghost closed: set<Channel>)
      requires Agreement(w) && ClosedNowhere(w) && this in w.selectors
      modifies w.selectors`keys, w.selectors`interest, `pending
      modifies w.channels, w.keys`channel, w.keys`events, w.keys`selections
      ensures Agreement(w) && ClosedNowhere(w) && Distinct(events) && closed <= w.channels
      ensures Took(old(ViewOf(w)), ViewOf(w), this, Descriptors(events), closed) && AreThoseThatEnd(w, closed, events)
      ensures forall i :: 0 <= i < |events| ==> events[i].fd in old(keys)
      ensures pending == KeysOf(old(keys), events)
      ensures forall i :: 0 <= i < |events| ==> pending[i].events == events[i].events
      ensures forall k :: k in w.keys && k !in pending ==> k.events == old(k.events)
      ensures selected <==> events != []
      ensures selected ==> waits != [] && waits[|waits| - 1] == Ready(events) && AllQuiet(waits[..|waits| - 1])
      ensures !selected ==> AllQuiet(waits) && (!enabled || |waits| == rounds || Elapsed(waits) == timeout)
    {
      hide Agreement, ClosedNowhere, AllQuiet, Elapsed, Descriptors, AreThoseThatEnd, ViewOf, Took, WithReports;
      SelectorKeys(w, this);
      pending := [];
      var reported;
      reported, waits := WaitForEvents(timeout, rounds);
      selected, events := reported != [], reported;
      closed := TakeEvents(w, reported);
      ReportsReachTheirKeys(old(ReportedOf(w)), old(keys), events);
      forall i | 0 <= i < |events|
        ensures pending[i].events == events[i].events
      {
        assert pending[i] == old(keys)[events[i].fd];
        assert ReportedOf(w)[pending[i]] == pending[i].events;
      }
      forall k | k in w.keys && k !in pending
        ensures k.events == old(k.events)
      {
        assert ReportedOf(w)[k] == k.events && old(ReportedOf(w))[k] == old(k.events);
      }
    }

    /** Enters the key, then the descriptor: epoll refuses one that is closed or that it has already. */
    method Put(key: SelectionKey, fd: int, open: bool) returns (ok: bool)
      modifies `keys, `interest
      ensures keys == old(keys)[fd := key]
      ensures ok <==> open && fd !in old(interest)
      ensures interest == if ok then old(interest) + {fd} else old(interest)
    {
      keys := keys[fd := key];
      ok := open && fd !in interest;
      if ok {
        interest := interest + {fd};
      }
    }

    /** Removes the entry, then the descriptor: epoll refuses one that is closed or that it does not have. */
    method Remove(fd: int, open: bool) returns (ok: bool)
      modifies `keys, `interest
      ensures keys == old(keys) - {fd}
      ensures ok <==> open && fd in old(interest)
      ensures interest == if ok then old(interest) - {fd} else old(interest)
    {
      keys := keys - {fd};
      ok := open && fd in interest;
      if ok {
        interest := interest - {fd};
      }
    }
  }

  ghost predicate DistinctDescriptors(w: World) {
    forall c, d :: c in w.channels && d in w.channels && c.fd == d.fd ==> c == d
  }

  /** The selector's entry for a descriptor is also the entry of the channel with that descriptor. */
  ghost predicate SelectorSide(w: World, s: Selector, fd: int)
    requires fd in s.keys
    reads s`keys, w.channels`keys, w.keys`channel, w.keys`selections
  {
    var k := s.keys[fd];
    && k in w.keys && k.selector == s && k.selections == 0
    && k.channel != null && k.channel in w.channels && k.channel.fd == fd
    && s in k.channel.keys && k.channel.keys[s] == k
  }

  ghost predicate ChannelSide(w: World, c: Channel, s: Selector)
    requires s in c.keys
    reads c`keys, w.selectors`keys
  {
    s in w.selectors && c.fd in s.keys && s.keys[c.fd] == c.keys[s]
  }

  /** A key that has neither been cancelled nor selected. */
  ghost predicate Live(k: SelectionKey)
    reads k`channel, k`selections
  {
    k.channel != null && k.selections == 0
  }

  /** A live key is registered for its channel and its selector; no key has been selected twice. */
  ghost predicate KeySide(w: World, k: SelectionKey)
    reads k`channel, k`selections, w.channels`keys, w.selectors`keys
  {
    && k.selections <= 1
    && (Live(k) ==>
          && k.selector in w.selectors && k.channel in w.channels
          && k.channel.fd in k.selector.keys && k.selector.keys[k.channel.fd] == k)
  }

  ghost predicate Agreement(w: World)
    reads w.channels`keys, w.selectors`keys, w.selectors`interest, w.keys`channel, w.keys`selections
  {
    && DistinctDescriptors(w)
    && (forall s, fd :: s in w.selectors && fd in s.keys ==> SelectorSide(w, s, fd))
    && (forall c, s :: c in w.channels && s in c.keys ==> ChannelSide(w, c, s))
    && (forall k :: k in w.keys ==> KeySide(w, k))
    && (forall s :: s in w.selectors ==> s.interest == s.keys.Keys)
  }

  /** A closed channel is registered nowhere; the others can still be used. */
  ghost predicate ClosedNowhere(w: World)
    reads w.channels`active, w.channels`open, w.channels`keys
  {
    && (forall c :: c in w.channels && !c.active ==> c.keys == map[])
    && (forall c :: c in w.channels ==> (c.active <==> c.open))
  }

  lemma RegisteredOnBothSides(w: World, k: SelectionKey)
    requires Agreement(w) && k in w.keys && Live(k)
    ensures k.channel in w.channels && k.selector in w.selectors
    ensures k.selector in k.channel.keys && k.channel.keys[k.selector] == k
    ensures k.channel.fd in k.selector.keys && k.selector.keys[k.channel.fd] == k
    ensures k.channel.fd in k.selector.interest
  {
    assert KeySide(w, k);
    assert SelectorSide(w, k.selector, k.channel.fd);
  }

  /** A key in its world, with the channel that it is or was registered for. */
  datatype Entry = Entry(world: World, channel: Channel, key: SelectionKey)

  /** Nothing but the maps of one channel and one selector, and one key, has changed. */
  twostate predicate OnlyThis(e: Entry)
    reads e.world.channels, e.world.selectors, e.world.keys
  {
    && e.channel in e.world.channels && e.key.selector in e.world.selectors && e.key in e.world.keys
    && (forall d :: d in e.world.channels && d != e.channel ==> d.keys == old(d.keys))
    && (forall t :: t in e.world.selectors && t != e.key.selector ==> t.keys == old(t.keys) && t.interest == old(t.interest))
    && (forall l :: l in e.world.keys && l != e.key ==> l.channel == old(l.channel) && l.selections == old(l.selections))
  }

  // A registration goes: the key is cancelled, or it is selected.

  twostate predicate Left(e: Entry)
    reads e.world.channels, e.world.selectors, e.world.keys, e.channel, e.key, e.key.selector
  {
    && OnlyThis(e)
    && old(e.key.channel) == e.channel && old(e.key.selections) == 0
    && e.channel.keys == old(e.channel.keys) - {e.key.selector}
    && e.key.selector.keys == old(e.key.selector.keys) - {e.channel.fd}
    && e.key.selector.interest == old(e.key.selector.interest) - {e.channel.fd}
    && e.key.selections <= 1 && !Live(e.key)
  }

  twostate lemma AfterLeaving(e: Entry)
    requires old(Agreement(e.world)) && Left(e)
    ensures Agreement(e.world)
  {
    LeavingSelectors(e);
    LeavingChannels(e);
    LeavingKeys(e);
  }

  twostate lemma LeavingSelectors(e: Entry)
    requires old(Agreement(e.world)) && Left(e)
    ensures forall t, fd :: t in e.world.selectors && fd in t.keys ==> SelectorSide(e.world, t, fd)
    ensures forall t :: t in e.world.selectors ==> t.interest == t.keys.Keys
  {
    forall t, fd | t in e.world.selectors && fd in t.keys
      ensures SelectorSide(e.world, t, fd)
    {
      assert old(SelectorSide(e.world, t, fd));
    }
  }

  twostate lemma LeavingChannels(e: Entry)
    requires old(Agreement(e.world)) && Left(e)
    ensures forall d, t :: d in e.world.channels && t in d.keys ==> ChannelSide(e.world, d, t)
  {
    forall d, t | d in e.world.channels && t in d.keys
      ensures ChannelSide(e.world, d, t)
    {
      assert old(ChannelSide(e.world, d, t));
    }
  }

  twostate lemma LeavingKeys(e: Entry)
    requires old(Agreement(e.world)) && Left(e)
    ensures forall l :: l in e.world.keys ==> KeySide(e.world, l)
  {
    forall l | l in e.world.keys
      ensures KeySide(e.world, l)
    {
      assert old(KeySide(e.world, l));
    }
  }

  // A registration comes.

  lemma Replaced<K, V>(m: map<K, V>, k: K, v: V)
    ensures (m - {k})[k := v] == m[k := v]
  {
  }

  lemma UnregisteredOnBothSides(w: World, c: Channel, s: Selector)
    requires Agreement(w) && c in w.channels && s in w.selectors && s !in c.keys
    ensures c.fd !in s.keys && c.fd !in s.interest
  {
    assert c.fd in s.keys ==> SelectorSide(w, s, c.fd);
  }

  lemma HalfEntered(w: World, k: SelectionKey, c: Channel)
    requires c in w.channels && k.selector in w.selectors && k.channel == c
    requires k.selector !in c.keys && c.fd in k.selector.keys && k.selector.keys[c.fd] == k
    ensures !Agreement(w)
  {
    assert Agreement(w) ==> SelectorSide(w, k.selector, c.fd);
  }

  /** What the key's entry in its selector and its channel has changed. */
  twostate predicate Entered(e: Entry)
    reads e.world.channels, e.world.selectors, e.world.keys, e.channel, e.key, e.key.selector
  {
    && e.channel in e.world.channels && e.key.selector in e.world.selectors && e.key !in e.world.keys
    && e.key.channel == e.channel && e.key.selections == 0
    && old(e.key.selector !in e.channel.keys)
    && e.channel.keys == old(e.channel.keys)[e.key.selector := e.key]
    && e.key.selector.keys == old(e.key.selector.keys)[e.channel.fd := e.key]
    && e.key.selector.interest == old(e.key.selector.interest) + {e.channel.fd}
    && (forall d :: d in e.world.channels && d != e.channel ==> d.keys == old(d.keys))
    && (forall t :: t in e.world.selectors && t != e.key.selector ==> t.keys == old(t.keys) && t.interest == old(t.interest))
    && (forall l :: l in e.world.keys ==> l.channel == old(l.channel) && l.selections == old(l.selections))
  }

  twostate lemma AfterEntering(e: Entry)
    requires old(Agreement(e.world)) && Entered(e)
    ensures Agreement(e.world.(keys := e.world.keys + {e.key}))
  {
    EnteringSelectors(e);
    EnteringChannels(e);
    EnteringKeys(e);
  }

  ghost function With(e: Entry): World {
    e.world.(keys := e.world.keys + {e.key})
  }

  twostate lemma EnteringSelectors(e: Entry)
    requires old(Agreement(e.world)) && Entered(e)
    ensures forall t, fd :: t in e.world.selectors && fd in t.keys ==> SelectorSide(With(e), t, fd)
    ensures forall t :: t in e.world.selectors ==> t.interest == t.keys.Keys
  {
    forall t, fd | t in e.world.selectors && fd in t.keys
      ensures SelectorSide(With(e), t, fd)
    {
      if t != e.key.selector || fd != e.channel.fd {
        assert old(SelectorSide(e.world, t, fd));
      }
    }
  }

  twostate lemma EnteringChannels(e: Entry)
    requires old(Agreement(e.world)) && Entered(e)
    ensures forall d, t :: d in e.world.channels && t in d.keys ==> ChannelSide(With(e), d, t)
  {
    forall d, t | d in e.world.channels && t in d.keys
      ensures ChannelSide(With(e), d, t)
    {
      if t != e.key.selector || d != e.channel {
        assert old(ChannelSide(e.world, d, t));
      }
    }
  }

  twostate lemma EnteringKeys(e: Entry)
    requires old(Agreement(e.world)) && Entered(e)
    ensures forall l :: l in With(e).keys ==> KeySide(With(e), l)
  {
    forall l | l in With(e).keys
      ensures KeySide(With(e), l)
    {
      if l != e.key {
        assert old(KeySide(e.world, l));
        assert old(Live(l)) ==> old(SelectorSide(e.world, l.selector, l.channel.fd));
      }
    }
  }

  lemma RegisteredByChannel(w: World, c: Channel, s: Selector)
    requires Agreement(w) && c in w.channels && s in c.keys
    ensures s in w.selectors && c.keys[s] in w.keys && c.keys[s].channel == c && c.keys[s].selector == s && Live(c.keys[s])
  {
    assert ChannelSide(w, c, s);
    assert SelectorSide(w, s, c.fd);
  }

  lemma RegisteredEverywhere(w: World, c: Channel)
    requires Agreement(w) && c in w.channels
    ensures forall k :: k in w.keys ==> (k in c.keys.Values <==> k.channel == c && k.selections == 0)
    ensures forall k :: k in c.keys.Values ==> k in w.keys
    ensures forall s :: s in c.keys ==> c.keys[s].selector == s
    ensures forall s :: s in w.selectors && s !in c.keys ==> c.fd !in s.keys
  {
    forall s | s in w.selectors && s !in c.keys
      ensures c.fd !in s.keys
    {
      UnregisteredOnBothSides(w, c, s);
    }
    forall k | k in c.keys.Values
      ensures k in w.keys && k.channel == c && k.selections == 0
    {
      var s :| s in c.keys && c.keys[s] == k;
      RegisteredByChannel(w, c, s);
    }
    forall s | s in c.keys
      ensures c.keys[s].selector == s
    {
      RegisteredByChannel(w, c, s);
    }
    forall k | k in w.keys && Live(k) && k.channel == c
      ensures k in c.keys.Values
    {
      RegisteredOnBothSides(w, k);
    }
  }

  lemma RegisteredIsOpen(w: World, c: Channel)
    requires ClosedNowhere(w) && c in w.channels
    ensures c.keys != map[] ==> c.active
    ensures c.active <==> c.open
  {
  }

  // Selection.

  function Descriptors(events: seq<Event>): (fds: set<int>) {
    set i | 0 <= i < |events| :: events[i].fd
  }

  /** No wait has brought anything. */
  predicate AllQuiet(waits: seq<Wait>) {
    forall i :: 0 <= i < |waits| ==> waits[i] == Interrupted || waits[i] == Ready([])
  }

  /** The waits that have run their time. */
  function Elapsed(waits: seq<Wait>): nat {
    if waits == [] then 0
    else Elapsed(waits[..|waits| - 1]) + if waits[|waits| - 1].Ready? then 1 else 0
  }

  lemma NoWaits()
    ensures AllQuiet([]) && Elapsed([]) == 0
  {
  }

  lemma OneMoreWait(waits: seq<Wait>, wait: Wait)
    ensures AllQuiet(waits + [wait]) <==> AllQuiet(waits) && (wait == Interrupted || wait == Ready([]))
    ensures Elapsed(waits + [wait]) == Elapsed(waits) + if wait.Ready? then 1 else 0
    ensures (waits + [wait])[..|waits|] == waits
  {
    var all := waits + [wait];
    assert all[..|waits|] == waits && all[|waits|] == wait;
    assert forall i :: 0 <= i < |waits| ==> waits[i] == all[i];
  }

  lemma NotEmpty(fds: set<int>)
    requires fds != {}
    ensures exists fd :: fd in fds
  {
    assert (forall fd :: fd !in fds) ==> fds == {};
  }

  predicate Distinct(events: seq<Event>) {
    forall i, j :: 0 <= i < j < |events| ==> events[i].fd != events[j].fd
  }

  lemma DescriptorsAppend(events: seq<Event>, e: Event)
    ensures Descriptors(events + [e]) == Descriptors(events) + {e.fd}
    ensures Distinct(events + [e]) <==> Distinct(events) && e.fd !in Descriptors(events)
  {
    var more := events + [e];
    assert more[|events|] == e;
    assert forall i :: 0 <= i < |events| ==> more[i] == events[i];
    assert forall fd :: fd in Descriptors(events) ==> fd in Descriptors(more);
  }

  lemma TakenNone(w: World, s: Selector, keys: map<int, SelectionKey>, events: seq<Event>)
    ensures Descriptors(events[..0]) == {} && KeysOf(keys, events[..0]) == [] && AreThoseThatEnd(w, {}, events[..0])
    ensures Took(ViewOf(w), ViewOf(w), s, {}, {})
  {
  }

  lemma CloseMore(w: World, closed: set<Channel>, events: seq<Event>, i: nat, closing: set<Channel>)
    requires i < |events| && AreThoseThatEnd(w, closed, events[..i]) && AreThoseThatEnd(w, closing, [events[i]])
    ensures AreThoseThatEnd(w, closed + closing, events[..i + 1])
  {
    assert events[..i + 1] == events[..i] + [events[i]];
    assert forall e :: e in events[..i + 1] ==> e in events[..i] || e in [events[i]];
    forall c | c in w.channels && c.stream
      ensures c in closed + closing <==> exists e :: e in events[..i + 1] && e.fd == c.fd && e.Ended()
    {
      if c in closed {
        var e :| e in events[..i] && e.fd == c.fd && e.Ended();
        assert e in events[..i + 1];
      } else if c in closing {
        var e :| e in [events[i]] && e.fd == c.fd && e.Ended();
        assert e in events[..i + 1];
      }
    }
  }

  lemma TakenSoFar(events: seq<Event>, i: nat)
    requires i < |events| && Distinct(events)
    ensures Descriptors(events[..i + 1]) == Descriptors(events[..i]) + {events[i].fd}
    ensures events[i].fd !in Descriptors(events[..i]) && events[i].fd in Descriptors(events)
    ensures Descriptors(events[..i + 1]) <= Descriptors(events)
    ensures events[..|events|] == events
  {
    assert events[..i + 1] == events[..i] + [events[i]];
    DescriptorsAppend(events[..i], events[i]);
  }

  lemma RegisteredBySelector(w: World, s: Selector, fd: int)
    requires Agreement(w) && s in w.selectors && fd in s.interest
    ensures fd in s.keys && s.keys[fd] in w.keys && Live(s.keys[fd]) && s.keys[fd].selector == s
    ensures s.keys[fd].channel in w.channels && s.keys[fd].channel.fd == fd && s in s.keys[fd].channel.keys
    ensures forall c :: c in w.channels && c.fd == fd ==> c == s.keys[fd].channel
    ensures forall k :: k in w.keys && Live(k) && k.selector == s && k.channel.fd == fd ==> k == s.keys[fd]
  {
    assert forall k :: k in w.keys ==> KeySide(w, k);
    assert SelectorSide(w, s, fd);
  }

  /** The keys for the descriptors of the events. */
  function KeysOf(keys: map<int, SelectionKey>, events: seq<Event>): (ks: seq<SelectionKey>)
    requires forall i :: 0 <= i < |events| ==> events[i].fd in keys
  {
    seq(|events|, i requires 0 <= i < |events| => keys[events[i].fd])
  }

  lemma KeysAppend(keys: map<int, SelectionKey>, events: seq<Event>, i: nat)
    requires i < |events| && forall j :: 0 <= j <= i ==> events[j].fd in keys
    ensures KeysOf(keys, events[..i + 1]) == KeysOf(keys, events[..i]) + [keys[events[i].fd]]
  {
  }

  /** The events that each key holds. */
  ghost function ReportedOf(w: World): map<SelectionKey, int>
    reads w.keys`events
  {
    map k | k in w.keys :: k.events
  }

  /** The same once every event has reached the key of its descriptor. */
  ghost function WithReports(held: map<SelectionKey, int>, keys: map<int, SelectionKey>, events: seq<Event>)
    : map<SelectionKey, int>
    requires forall i :: 0 <= i < |events| ==> events[i].fd in keys
  {
    if events == [] then held
    else
      var last := events[|events| - 1];
      WithReports(held, keys, events[..|events| - 1])[keys[last.fd] := last.events]
  }

  twostate lemma OneReported(e: Entry)
    requires e.key in e.world.keys && forall k :: k in e.world.keys && k != e.key ==> k.events == old(k.events)
    ensures ReportedOf(e.world) == old(ReportedOf(e.world))[e.key := e.key.events]
  {
  }

  lemma NoReports(held: map<SelectionKey, int>, keys: map<int, SelectionKey>, events: seq<Event>)
    ensures WithReports(held, keys, events[..0]) == held
  {
  }

  lemma ReportsAppend(held: map<SelectionKey, int>, keys: map<int, SelectionKey>, events: seq<Event>, i: nat)
    requires i < |events| && forall j :: 0 <= j <= i ==> events[j].fd in keys
    ensures WithReports(held, keys, events[..i + 1]) ==
            WithReports(held, keys, events[..i])[keys[events[i].fd] := events[i].events]
  {
    assert events[..i + 1][..i] == events[..i];
  }

  /** Every key holds what was last reported for its descriptor, and the others what they held before. */
  lemma {:induction false} ReportsReachTheirKeys(held: map<SelectionKey, int>, keys: map<int, SelectionKey>, events: seq<Event>)
    requires Distinct(events) && forall i :: 0 <= i < |events| ==> events[i].fd in keys
    requires forall fd, fd' :: fd in keys && fd' in keys && fd != fd' ==> keys[fd] != keys[fd']
    ensures var m := WithReports(held, keys, events);
            && (forall i :: 0 <= i < |events| ==> keys[events[i].fd] in m && m[keys[events[i].fd]] == events[i].events)
            && forall k :: k in held && k !in KeysOf(keys, events) ==> k in m && m[k] == held[k]
  {
    if events != [] {
      var front := events[..|events| - 1];
      ReportsReachTheirKeys(held, keys, front);
      forall k | k !in KeysOf(keys, events)
        ensures k !in KeysOf(keys, front) && k != keys[events[|events| - 1].fd]
      {
        KeysAppend(keys, events, |events| - 1);
        assert events[..|events|] == events;
      }
    }
  }

  /** A selector holds a key under one descriptor only. */
  lemma SelectorKeys(w: World, s: Selector)
    requires Agreement(w) && s in w.selectors
    ensures forall fd, fd' :: fd in s.keys && fd' in s.keys && fd != fd' ==> s.keys[fd] != s.keys[fd']
  {
    forall fd | fd in s.keys
      ensures s.keys[fd].channel != null && s.keys[fd].channel.fd == fd
    {
      assert SelectorSide(w, s, fd);
    }
  }

  function DescriptorsOf(channels: set<Channel>): (fds: set<int>) {
    set c | c in channels :: c.fd
  }

  lemma DescriptorsOfOne(c: Channel)
    ensures DescriptorsOf({}) == {} && DescriptorsOf({c}) == {c.fd}
  {
  }

  lemma DescriptorsOfUnion(cs: set<Channel>, ds: set<Channel>)
    ensures DescriptorsOf(cs + ds) == DescriptorsOf(cs) + DescriptorsOf(ds)
  {
    forall fd | fd in DescriptorsOf(cs) + DescriptorsOf(ds)
      ensures fd in DescriptorsOf(cs + ds)
    {
      var c :| c in cs + ds && c.fd == fd;
    }
  }

  lemma InterestIsKeys(w: World)
    requires Agreement(w)
    ensures forall s :: s in w.selectors ==> s.interest == s.keys.Keys
  {
  }

  /** Exactly the streams whose events say so have closed. */
  predicate AreThoseThatEnd(w: World, closed: set<Channel>, events: seq<Event>) {
    closed == set c | c in w.channels && c.stream && exists e :: e in events && e.fd == c.fd && e.Ended()
  }

  lemma OnlyOfItsDescriptor(w: World, c: Channel)
    requires Agreement(w) && c in w.channels
    ensures forall d :: d in w.channels && d.fd == c.fd ==> d == c
  {
  }

  /** What a selector, a channel and a key hold. */
  datatype SelectorView = SelectorView(keys: map<int, SelectionKey>, interest: set<int>)

  datatype ChannelView = ChannelView(active: bool, keys: map<Selector, SelectionKey>)

  datatype KeyView = KeyView(channel: Channel?, selections: nat)
  {
    predicate Live() {
      channel != null && selections == 0
    }
  }

  /** What all of them hold at some moment. */
  datatype View = View(selectors: map<Selector, SelectorView>, channels: map<Channel, ChannelView>,
                       keys: map<SelectionKey, KeyView>)

  ghost function ViewOf(w: World): View
    reads w.selectors`keys, w.selectors`interest, w.channels`active, w.channels`keys, w.keys`channel, w.keys`selections
  {
    View(map s | s in w.selectors :: SelectorView(s.keys, s.interest),
         map c | c in w.channels :: ChannelView(c.active, c.keys),
         map k | k in w.keys :: KeyView(k.channel, k.selections))
  }

  lemma Seen(w: World)
    ensures forall s :: s in w.selectors ==> s in ViewOf(w).selectors && ViewOf(w).selectors[s] == SelectorView(s.keys, s.interest)
    ensures forall c :: c in w.channels ==> c in ViewOf(w).channels && ViewOf(w).channels[c] == ChannelView(c.active, c.keys)
    ensures forall k :: k in w.keys ==> k in ViewOf(w).keys && ViewOf(w).keys[k] == KeyView(k.channel, k.selections)
  {
  }

  ghost predicate SameObjects(v: View, v': View) {
    v.selectors.Keys == v'.selectors.Keys && v.channels.Keys == v'.channels.Keys && v.keys.Keys == v'.keys.Keys
  }

  /** A channel was closed: it is registered nowhere, and its live keys are cancelled. */
  ghost predicate WentDown(v: View, v': View, c: Channel) {
    && SameObjects(v, v')
    && (forall s :: s in v.selectors ==>
          v'.selectors[s] == SelectorView(v.selectors[s].keys - {c.fd}, v.selectors[s].interest - {c.fd}))
    && (forall d :: d in v.channels ==> v'.channels[d] == if d == c then ChannelView(false, map[]) else v.channels[d])
    && (forall k :: k in v.keys ==>
          v'.keys[k] == if v.keys[k].Live() && v.keys[k].channel == c then KeyView(null, 0) else v.keys[k])
  }

  /**
     The effect of taking the events. The registrations of these descriptors with s are gone and their keys are
     selected; the channels in `closed`, whose descriptors are among them, are registered nowhere any more and
     their other keys are cancelled; everything else is as it was.
   */
  ghost predicate Took(v: View, v': View, s: Selector, fds: set<int>, closed: set<Channel>) {
    && SameObjects(v, v') && DescriptorsOf(closed) <= fds
    && SelectorsTook(v.selectors, v'.selectors, s, fds, closed)
    && ChannelsTook(v.channels, v'.channels, s, fds, closed)
    && KeysTook(v.keys, v'.keys, s, fds, closed)
  }

  ghost predicate SelectorsTook(v: map<Selector, SelectorView>, v': map<Selector, SelectorView>,
                                s: Selector, fds: set<int>, closed: set<Channel>)
    requires v.Keys == v'.Keys
  {
    forall t :: t in v ==>
      var gone := if t == s then fds else DescriptorsOf(closed);
      v'[t] == SelectorView(v[t].keys - gone, v[t].interest - gone)
  }

  ghost predicate ChannelsTook(v: map<Channel, ChannelView>, v': map<Channel, ChannelView>,
                               s: Selector, fds: set<int>, closed: set<Channel>)
    requires v.Keys == v'.Keys
  {
    forall c :: c in v ==>
      v'[c] == if c in closed then ChannelView(false, map[])
               else ChannelView(v[c].active, if c.fd in fds then v[c].keys - {s} else v[c].keys)
  }

  ghost predicate KeysTook(v: map<SelectionKey, KeyView>, v': map<SelectionKey, KeyView>,
                           s: Selector, fds: set<int>, closed: set<Channel>)
    requires v.Keys == v'.Keys
  {
    forall k :: k in v ==>
      v'[k] == if !v[k].Live() then v[k]
               else if k.selector == s then KeyView(v[k].channel, if v[k].channel.fd in fds then 1 else 0)
               else KeyView(if v[k].channel in closed then null else v[k].channel, 0)
  }

  /** A key was selected, and nothing else happened. */
  twostate predicate Unlisted(e: Entry)
    reads e.world.channels, e.world.selectors, e.world.keys, e.channel, e.key, e.key.selector
  {
    && Left(e) && e.key.channel == e.channel && e.key.selections == 1
    && (forall c :: c in e.world.channels ==> c.active == old(c.active) && (c.fd == e.channel.fd ==> c == e.channel))
    && (forall k :: k in e.world.keys && old(Live(k)) && k.selector == e.key.selector && old(k.channel.fd) == e.channel.fd
          ==> k == e.key)
  }

  twostate lemma AfterUnlisting(e: Entry)
    requires Unlisted(e)
    ensures Took(old(ViewOf(e.world)), ViewOf(e.world), e.key.selector, {e.channel.fd}, {})
  {
    hide Unlisted, SelectorsTook, ChannelsTook, KeysTook;
    DescriptorsOfOne(e.channel);
    UnlistedSelectors(e);
    UnlistedChannels(e);
    UnlistedKeys(e);
  }

  twostate lemma UnlistedSelectors(e: Entry)
    requires Unlisted(e)
    ensures SelectorsTook(old(ViewOf(e.world)).selectors, ViewOf(e.world).selectors, e.key.selector, {e.channel.fd}, {})
  {
    DescriptorsOfOne(e.channel);
  }

  twostate lemma UnlistedChannels(e: Entry)
    requires Unlisted(e)
    ensures ChannelsTook(old(ViewOf(e.world)).channels, ViewOf(e.world).channels, e.key.selector, {e.channel.fd}, {})
  {
  }

  twostate lemma UnlistedKeys(e: Entry)
    requires Unlisted(e)
    ensures KeysTook(old(ViewOf(e.world)).keys, ViewOf(e.world).keys, e.key.selector, {e.channel.fd}, {})
  {
  }

  lemma TookBySelector(w: World, v: View, s: Selector, fds: set<int>, closed: set<Channel>)
    requires s in w.selectors && Took(v, ViewOf(w), s, fds, closed)
    ensures s.keys == v.selectors[s].keys - fds && s.interest == v.selectors[s].interest - fds
  {
    assert ViewOf(w).selectors[s] == SelectorView(s.keys, s.interest);
  }

  /** Unlisting a channel and then perhaps closing it. */
  lemma TookAndWentDown(v: View, v': View, v'': View, s: Selector, c: Channel, closed: set<Channel>)
    requires Took(v, v', s, {c.fd}, {}) && closed <= {c}
    requires if closed == {} then v'' == v' else WentDown(v', v'', c)
    ensures Took(v, v'', s, {c.fd}, closed)
  {
    if closed != {} {
      assert closed == {c};
      DescriptorsOfOne(c);
    }
  }

  /** One more event. */
  lemma TookMore(v: View, v': View, v'': View, s: Selector, fds: set<int>, closed: set<Channel>,
                 fd: int, closing: set<Channel>)
    requires Took(v, v', s, fds, closed) && Took(v', v'', s, {fd}, closing)
    ensures Took(v, v'', s, fds + {fd}, closed + closing)
  {
    DescriptorsOfUnion(closed, closing);
    SelectorsTookMore(v.selectors, v'.selectors, v''.selectors, s, fds, closed, fd, closing);
    ChannelsTookMore(v.channels, v'.channels, v''.channels, s, fds, closed, fd, closing);
    KeysTookMore(v.keys, v'.keys, v''.keys, s, fds, closed, fd, closing);
  }

  lemma SelectorsTookMore(v: map<Selector, SelectorView>, v': map<Selector, SelectorView>,
                          v'': map<Selector, SelectorView>, s: Selector, fds: set<int>, closed: set<Channel>,
                          fd: int, closing: set<Channel>)
    requires v.Keys == v'.Keys == v''.Keys
    requires SelectorsTook(v, v', s, fds, closed) && SelectorsTook(v', v'', s, {fd}, closing)
    ensures SelectorsTook(v, v'', s, fds + {fd}, closed + closing)
  {
    DescriptorsOfUnion(closed, closing);
    hide DescriptorsOf;
    forall t | t in v
      ensures var gone := if t == s then fds + {fd} else DescriptorsOf(closed + closing);
              v''[t] == SelectorView(v[t].keys - gone, v[t].interest - gone)
    {
      var first := if t == s then fds else DescriptorsOf(closed);
      var second := if t == s then {fd} else DescriptorsOf(closing);
      RemovedTwice(v[t].keys, v[t].interest, first, second);
    }
  }

  lemma RemovedTwice(keys: map<int, SelectionKey>, interest: set<int>, first: set<int>, second: set<int>)
    ensures keys - first - second == keys - (first + second)
    ensures interest - first - second == interest - (first + second)
  {
  }

  lemma ChannelsTookMore(v: map<Channel, ChannelView>, v': map<Channel, ChannelView>, v'': map<Channel, ChannelView>,
                         s: Selector, fds: set<int>, closed: set<Channel>, fd: int, closing: set<Channel>)
    requires v.Keys == v'.Keys == v''.Keys
    requires ChannelsTook(v, v', s, fds, closed) && ChannelsTook(v', v'', s, {fd}, closing)
    ensures ChannelsTook(v, v'', s, fds + {fd}, closed + closing)
  {
    forall c | c in v
      ensures v[c].keys - {s} - {s} == v[c].keys - {s}
    {
    }
  }

  lemma KeysTookMore(v: map<SelectionKey, KeyView>, v': map<SelectionKey, KeyView>, v'': map<SelectionKey, KeyView>,
                     s: Selector, fds: set<int>, closed: set<Channel>, fd: int, closing: set<Channel>)
    requires v.Keys == v'.Keys == v''.Keys
    requires KeysTook(v, v', s, fds, closed) && KeysTook(v', v'', s, {fd}, closing)
    ensures KeysTook(v, v'', s, fds + {fd}, closed + closing)
  {
  }

  // Any run.

  datatype Operation =
    | Register(channel: Channel, selector: Selector)
    | Cancel(channel: Channel, selector: Selector)
    | Select(selector: Selector, timeout: int, rounds: nat)
    | Close(channel: Channel)

  predicate Concerns(w: World, op: Operation) {
    match op
    case Register(c, s) => c in w.channels && s in w.selectors
    case Cancel(c, s) => c in w.channels && s in w.selectors
    case Select(s, _, _) => s in w.selectors
    case Close(c) => c in w.channels
  }

  /**
     One operation; only a registration of a closed channel fails. Besides a close, only a select makes channels
     inactive: streams that were registered with its selector.
   */
  method Perform(ghost w: World, op: Operation) returns (ok: bool, ghost w': World, ghost closed: set<Channel>)
    requires Agreement(w) && ClosedNowhere(w) && Concerns(w, op)
    modifies w.channels, w.selectors, w.keys
    ensures w'.channels == w.channels && w'.selectors == w.selectors && fresh(w'.keys - w.keys) && w.keys <= w'.keys
    ensures ok <==> !(op.Register? && !old(op.channel.active))
    ensures ok ==> Agreement(w') && ClosedNowhere(w')
    ensures forall k :: k in w.keys ==> k.selections >= old(k.selections) && (!old(Live(k)) ==> !Live(k))
    ensures forall c :: c in w.channels ==> (c.active <==> old(c.active) && op != Close(c) && c !in closed)
    ensures forall c :: c in closed ==> op.Select? && c in w.channels && c.stream && old(c.fd in op.selector.keys)
    ensures op.Register? && ok ==> op.selector in op.channel.keys && fresh(op.channel.keys[op.selector])
    ensures op.Cancel? ==> op.channel.keys == old(op.channel.keys) - {op.selector}
    ensures op.Close? ==> op.channel.keys == map[]
  {
    hide Agreement;
    ok, w', closed := true, w, {};
    match op {
      case Register(c, s) =>
        var key;
        ok, key, w' := c.RegisterTo(w, s);
      case Cancel(c, s) =>
        c.CancelFor(w, s);
      case Select(s, timeout, rounds) =>
        var selected;
        ghost var events, waits;
        ghost var v := ViewOf(w);
        Seen(w);
        selected, events, waits, closed := s.Select(w, timeout, rounds);
        Seen(w);
      case Close(c) =>
        c.CloseChannel(w);
    }
  }

  /**
     Every run, up to the first registration of a closed channel: the three views agree, closed channels are
     registered nowhere, and neither a key that was cancelled or selected nor a channel that was closed, by a
     close or by a select, comes back to life.
   */
  method Run(ghost w: World, operations: seq<Operation>) returns (performed: nat, ghost w': World)
    requires Agreement(w) && ClosedNowhere(w)
    requires forall i :: 0 <= i < |operations| ==> Concerns(w, operations[i])
    modifies w.channels, w.selectors, w.keys
    ensures performed <= |operations|
    ensures performed == |operations| ==> Agreement(w') && ClosedNowhere(w')
    ensures performed < |operations| ==> operations[performed].Register? && !operations[performed].channel.active
    ensures w'.channels == w.channels && w'.selectors == w.selectors && fresh(w'.keys - w.keys) && w.keys <= w'.keys
    ensures forall k :: k in w.keys && !old(Live(k)) ==> !Live(k)
    ensures forall c :: c in w.channels && c.active ==> old(c.active)
  {
    hide Agreement, ClosedNowhere;
    performed, w' := 0, w;
    while performed < |operations|
      invariant performed <= |operations| && Agreement(w') && ClosedNowhere(w')
      invariant w'.channels == w.channels && w'.selectors == w.selectors && fresh(w'.keys - w.keys) && w.keys <= w'.keys
      invariant forall k :: k in w.keys && !old(Live(k)) ==> !Live(k)
      invariant forall c :: c in w.channels && c.active ==> old(c.active)
    {
      var ok;
      ghost var closed;
      ok, w', closed := Perform(w', operations[performed]);
      if !ok {
        return;
      }
      performed := performed + 1;
    }
  }

  /** Where every run starts: nothing is registered. */
  lemma NothingRegistered(w: World)
    requires DistinctDescriptors(w) && w.keys == {}
    requires forall c :: c in w.channels ==> c.active && c.open && c.keys == map[]
    requires forall s :: s in w.selectors ==> s.keys == map[] && s.interest == {}
    ensures Agreement(w) && ClosedNowhere(w)
  {
  }

  /** A pair has at most one live key, and it is the one that the selector and the channel know. */
  lemma OneLiveKey(w: World, k: SelectionKey, l: SelectionKey)
    requires Agreement(w) && k in w.keys && l in w.keys && Live(k)
    requires l.selector == k.selector && l.channel == k.channel
    ensures Live(l) <==> l == k
    ensures k.selector in k.channel.keys && k.channel.keys[k.selector] == k
    ensures k.channel.fd in k.selector.keys && k.selector.keys[k.channel.fd] == k
  {
    RegisteredOnBothSides(w, k);
    if Live(l) {
      RegisteredOnBothSides(w, l);
    }
  }

  /** No selector, epoll set or live key knows a closed channel. */
  lemma ClosedIsUnknown(w: World, c: Channel)
    requires Agreement(w) && ClosedNowhere(w) && c in w.channels && !c.active
    ensures forall s :: s in w.selectors ==> c.fd !in s.keys && c.fd !in s.interest
    ensures forall k :: k in w.keys && k.channel == c ==> !Live(k)
  {
    forall s | s in w.selectors
      ensures c.fd !in s.keys && c.fd !in s.interest
    {
      UnregisteredOnBothSides(w, c, s);
    }
    RegisteredEverywhere(w, c);
  }
}
