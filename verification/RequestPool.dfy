/**
 Keyed request threads. Requests with one key go to one thread record as long
 as that record lives; every method is one critical section, and any
 interleaving of them is a run. Policies are balanced around a handler, and no
 key is released by hand.
 */
module RequestPool {
  import opened Common

  datatype Key = NoKey | Key(id: nat)

  /** A GIOPQueueEntry; the serial number tells equal requests apart. */
  datatype Req = Req(key: Key, poa: nat, serial: nat)

  /** What first_valid_request found before the record's lock was taken. */
  datatype Choice = NotLooking | NoPolicy | NoneAllowed | At(index: nat)

  /**
   A GIOPThread: `policies` are the sets of allowed POAs, innermost first, and
   `handlers` has, for every handler in progress, the depth of policies it found.
   */
  datatype Thread = Thread(keys: seq<nat>, queue: seq<Req>, asyncEnts: seq<nat>, policies: seq<set<nat>>,
                           handlers: seq<nat>, choice: Choice)

  /** The requests of one key, in order. */
  function Of(s: seq<Req>, k: Key): seq<Req>
  {
    if s == [] then []
    else Of(s[..|s| - 1], k) + if s[|s| - 1].key == k then [s[|s| - 1]] else []
  }

  lemma {:induction false} OfAppend(a: seq<Req>, b: seq<Req>, k: Key)
    ensures Of(a + b, k) == Of(a, k) + Of(b, k)
  {
    if b == [] {
      assert a + b == a;
    } else {
      assert (a + b)[..|a + b| - 1] == a + b[..|b| - 1];
      OfAppend(a, b[..|b| - 1], k);
    }
  }

  lemma {:induction false} OfNone(s: seq<Req>, k: Key)
    requires forall i :: 0 <= i < |s| ==> s[i].key != k
    ensures Of(s, k) == []
  {
    if s != [] {
      OfNone(s[..|s| - 1], k);
    }
  }

  lemma OfOne(r: Req, k: Key)
    ensures Of([r], k) == if r.key == k then [r] else []
  {
    assert [r][..0] == [];
  }

  /** Taking out the first request of its key leaves that key's order as it was. */
  lemma OfWithout(q: seq<Req>, i: nat, k: Key)
    requires i < |q| && (q[i].key == k ==> forall j :: 0 <= j < i ==> q[j].key != k)
    ensures Of([q[i]], k) + Of(q[..i] + q[i + 1..], k) == Of(q, k)
  {
    hide Of;
    var front, mid, back := q[..i], [q[i]], q[i + 1..];
    assert q == front + (mid + back);
    OfAppend(front, mid + back, k);
    OfAppend(mid, back, k);
    OfAppend(front, back, k);
    OfOne(q[i], k);
    if q[i].key == k {
      OfNone(front, k);
      assert Of(q, k) == [] + (Of(mid, k) + Of(back, k)) == Of(mid, k) + ([] + Of(back, k));
    } else {
      assert Of(q, k) == Of(front, k) + ([] + Of(back, k)) == [] + (Of(front, k) + Of(back, k));
    }
  }

  ghost predicate Rising(s: seq<Req>)
  {
    forall i, j :: 0 <= i < j < |s| ==> s[i].serial < s[j].serial
  }

  lemma {:induction false} OfMember(s: seq<Req>, k: Key, x: Req)
    ensures x in Of(s, k) <==> x in s && x.key == k
  {
    if s != [] {
      var n := |s| - 1;
      OfMember(s[..n], k, x);
      assert s == s[..n] + [s[n]];
    }
  }

  lemma {:induction false} OfRising(s: seq<Req>, k: Key)
    requires Rising(s)
    ensures Rising(Of(s, k))
  {
    if s != [] {
      var n := |s| - 1;
      OfRising(s[..n], k);
      forall i | 0 <= i < |Of(s[..n], k)| ensures Of(s[..n], k)[i].serial < s[n].serial {
        OfMember(s[..n], k, Of(s[..n], k)[i]);
      }
    }
  }

  /** An earlier request of the key `k` is passed over when `q[i]` starts. */
  ghost predicate Overtakes(q: seq<Req>, i: nat, k: Key)
    requires i < |q|
  {
    q[i].key == k && exists j :: 0 <= j < i && q[j].key == k
  }

  /** Starting `q[i]` keeps a key in order exactly if it was in order and nothing is overtaken. */
  lemma StartIsInOrder(q: seq<Req>, i: nat, k: Key, pushed: seq<Req>, started: seq<Req>)
    requires i < |q| && Rising(q) && Rising(pushed)
    ensures Of(started + [q[i]], k) + Of(q[..i] + q[i + 1..], k) == Of(pushed, k) <==>
            Of(started, k) + Of(q, k) == Of(pushed, k) && !Overtakes(q, i, k)
  {
    hide Of;
    var r, rest := q[i], q[..i] + q[i + 1..];
    OfAppend(started, [r], k);
    OfOne(r, k);
    if Overtakes(q, i, k) {
      var j :| 0 <= j < i && q[j].key == k;
      assert rest[j] == q[j];
      OfMember(rest, k, q[j]);
      OfRising(pushed, k);
      var s := Of(started, k) + [r] + Of(rest, k);
      var b :| 0 <= b < |Of(rest, k)| && Of(rest, k)[b] == q[j];
      assert s[|Of(started, k)|] == r && s[|Of(started, k)| + 1 + b] == q[j];
      assert !Rising(s);
    } else {
      OfWithout(q, i, k);
      assert (Of(started, k) + Of([r], k)) + Of(rest, k) == Of(started, k) + (Of([r], k) + Of(rest, k));
    }
  }

  predicate OnePoa(s: seq<Req>, k: Key)
  {
    forall i, j :: 0 <= i < |s| && 0 <= j < |s| && s[i].key == k == s[j].key ==> s[i].poa == s[j].poa
  }

  /** The index of the first request a policy allows, or |q|. */
  function FirstAllowed(q: seq<Req>, poas: set<nat>): (i: nat)
    ensures i <= |q| && (i < |q| ==> q[i].poa in poas)
    ensures forall j :: 0 <= j < i ==> q[j].poa !in poas
  {
    if q == [] || q[0].poa in poas then 0 else 1 + FirstAllowed(q[1..], poas)
  }

  /** Every key leads to the one living record that lists it, and back. */
  ghost predicate KeysAgree(hash: map<nat, nat>, threads: map<nat, Thread>)
  {
    && (forall k :: k in hash ==> hash[k] in threads && k in threads[hash[k]].keys)
    && (forall t, k :: t in threads && k in threads[t].keys ==> k in hash && hash[k] == t)
  }

  /** A waiting request waits at the record of its key. */
  ghost predicate Routed(hash: map<nat, nat>, threads: map<nat, Thread>)
  {
    forall t, r :: t in threads && r in threads[t].queue && r.key.Key? ==> r.key.id in hash && hash[r.key.id] == t
  }

  ghost predicate Waiting(threads: map<nat, Thread>, r: Req)
  {
    exists t :: t in threads && r in threads[t].queue
  }

  /** Nothing is lost or doubled: a pushed request is started, or waits in one place. */
  ghost predicate Conserved(threads: map<nat, Thread>, pushed: seq<Req>, started: seq<Req>)
  {
    && (forall i :: 0 <= i < |pushed| ==> pushed[i].serial == i)
    && (forall r :: r in pushed <==> r in started || Waiting(threads, r))
    && (forall r :: r in started ==> !Waiting(threads, r))
    && NoRepeats(started)
    && (forall t :: t in threads ==> Rising(threads[t].queue))
    && (forall t, u, r :: t in threads && u in threads && r in threads[t].queue && r in threads[u].queue ==> t == u)
  }

  /** What the record's own thread keeps between its steps. */
  ghost predicate Steady(t: Thread)
  {
    && (t.handlers == [] ==> t.policies == [])
    && (t.handlers != [] ==> t.handlers[0] == 0)
    && (t.choice.NoPolicy? ==> t.policies == [])
    && (t.choice.At? ==> t.policies != [] && t.choice.index < |t.queue| &&
                         t.queue[t.choice.index].poa in t.policies[0] &&
                         forall j :: 0 <= j < t.choice.index ==> t.queue[j].poa !in t.policies[0])
  }

  ghost predicate AllSteady(threads: map<nat, Thread>)
  {
    forall t :: t in threads ==> Steady(threads[t])
  }

  ghost function QueueOf(hash: map<nat, nat>, threads: map<nat, Thread>, k: nat): seq<Req>
  {
    if k in hash && hash[k] in threads then threads[hash[k]].queue else []
  }

  /** The requests of `k` started so far, and then those that wait, are those pushed, in the order of the pushes. */
  ghost predicate Served(hash: map<nat, nat>, threads: map<nat, Thread>, pushed: seq<Req>, started: seq<Req>, k: nat)
  {
    Of(started, Key(k)) + Of(QueueOf(hash, threads, k), Key(k)) == Of(pushed, Key(k))
  }

  /** A key whose requests share a POA is always served in order. */
  ghost predicate InOrder(hash: map<nat, nat>, threads: map<nat, Thread>, pushed: seq<Req>, started: seq<Req>)
  {
    forall k: nat :: OnePoa(pushed, Key(k)) ==> Served(hash, threads, pushed, started, k)
  }

  // ------------------------------------------------------------ a push

  function Pushed(threads: map<nat, Thread>, t: nat, r: Req): map<nat, Thread>
    requires t in threads
  {
    var x := threads[t];
    threads[t := Thread(x.keys, x.queue + [r], x.asyncEnts, x.policies, x.handlers, x.choice)]
  }

  lemma PushConserves(threads: map<nat, Thread>, t: nat, r: Req, pushed: seq<Req>, started: seq<Req>)
    requires Conserved(threads, pushed, started) && t in threads && r.serial == |pushed|
    ensures Conserved(Pushed(threads, t, r), pushed + [r], started)
  {
    var after := Pushed(threads, t, r);
    forall x | x in threads[t].queue ensures x.serial < |pushed| {
      assert Waiting(threads, x);
      assert x in pushed;
    }
    assert r !in pushed;
    assert r !in started && !Waiting(threads, r);
    assert forall u :: u in threads ==> r !in threads[u].queue;
    assert r in after[t].queue;
    forall x ensures Waiting(after, x) <==> Waiting(threads, x) || x == r {
      if Waiting(threads, x) {
        var u :| u in threads && x in threads[u].queue;
        assert x in after[u].queue;
      }
      if Waiting(after, x) {
        var u :| u in after && x in after[u].queue;
        assert x == r || x in threads[u].queue;
      }
    }
  }

  lemma PushInOrder(hash: map<nat, nat>, threads: map<nat, Thread>, t: nat, r: Req, pushed: seq<Req>, started: seq<Req>)
    requires KeysAgree(hash, threads) && InOrder(hash, threads, pushed, started) && t in threads
    requires r.key.Key? ==> r.key.id in hash && hash[r.key.id] == t
    ensures InOrder(hash, Pushed(threads, t, r), pushed + [r], started)
    ensures forall k: nat :: Served(hash, Pushed(threads, t, r), pushed + [r], started, k) <==>
                             Served(hash, threads, pushed, started, k)
  {
    hide Of, OnePoa, Routed;
    var after, all := Pushed(threads, t, r), pushed + [r];
    forall k: nat
      ensures Served(hash, after, all, started, k) <==> Served(hash, threads, pushed, started, k)
      ensures OnePoa(all, Key(k)) ==> OnePoa(pushed, Key(k))
    {
      if OnePoa(all, Key(k)) {
        StillOnePoa(pushed, r, Key(k));
      }
      OfSnoc(pushed, r, Key(k));
      if k in hash && hash[k] == t {
        OfSnoc(threads[t].queue, r, Key(k));
        SameEnd(Of(started, Key(k)), Of(threads[t].queue, Key(k)), Of(pushed, Key(k)), Of([r], Key(k)));
      } else {
        OfOne(r, Key(k));
        assert Of(pushed, Key(k)) + [] == Of(pushed, Key(k));
      }
    }
  }

  lemma SameEnd(a: seq<Req>, b: seq<Req>, c: seq<Req>, d: seq<Req>)
    ensures a + (b + d) == c + d <==> a + b == c
  {
    assert a + (b + d) == (a + b) + d;
    if (a + b) + d == c + d {
      assert |a + b| == |c|;
      assert ((a + b) + d)[..|c|] == a + b && (c + d)[..|c|] == c;
    }
  }

  lemma StillOnePoa(s: seq<Req>, r: Req, k: Key)
    requires OnePoa(s + [r], k)
    ensures OnePoa(s, k)
  {
    assert forall i :: 0 <= i < |s| ==> (s + [r])[i] == s[i];
  }

  lemma OfSnoc(s: seq<Req>, r: Req, k: Key)
    ensures Of(s + [r], k) == Of(s, k) + Of([r], k)
  {
    OfAppend(s, [r], k);
  }

  // ------------------------------------------------------------ a start

  function Popped(threads: map<nat, Thread>, t: nat, i: nat): map<nat, Thread>
    requires t in threads && i < |threads[t].queue|
  {
    var x := threads[t];
    threads[t := Thread(x.keys, x.queue[..i] + x.queue[i + 1..], x.asyncEnts, x.policies, x.handlers + [|x.policies|], NotLooking)]
  }

  lemma RisingWithout(q: seq<Req>, i: nat)
    requires Rising(q) && i < |q|
    ensures Rising(q[..i] + q[i + 1..])
    ensures forall x :: x in q[..i] + q[i + 1..] <==> x in q && x != q[i]
  {
    var rest := q[..i] + q[i + 1..];
    assert forall j :: 0 <= j < |rest| ==> rest[j] == q[if j < i then j else j + 1];
    Unlist(q, i);
  }

  lemma PopConserves(threads: map<nat, Thread>, t: nat, i: nat, pushed: seq<Req>, started: seq<Req>)
    requires Conserved(threads, pushed, started) && t in threads && i < |threads[t].queue|
    ensures Conserved(Popped(threads, t, i), pushed, started + [threads[t].queue[i]])
  {
    var after, q := Popped(threads, t, i), threads[t].queue;
    var r, rest := q[i], q[..i] + q[i + 1..];
    assert r in q && Waiting(threads, r);
    RisingWithout(q, i);
    forall x ensures Waiting(after, x) <==> Waiting(threads, x) && x != r {
      if Waiting(threads, x) && x != r {
        var u :| u in threads && x in threads[u].queue;
        assert x in after[u].queue;
      }
      if Waiting(after, x) {
        var u :| u in after && x in after[u].queue;
        assert x in threads[u].queue;
      }
    }
  }

  /** No earlier request of the same key could have been chosen. */
  ghost predicate FirstOfKey(q: seq<Req>, i: nat)
    requires i < |q|
  {
    forall j :: 0 <= j < i ==> q[j].key != q[i].key || q[j].poa != q[i].poa
  }

  /** A start keeps every other key as it is, and its own in order exactly if it overtakes nothing. */
  lemma PopInOrder(hash: map<nat, nat>, threads: map<nat, Thread>, t: nat, i: nat, pushed: seq<Req>, started: seq<Req>)
    requires KeysAgree(hash, threads) && Routed(hash, threads)
    requires Conserved(threads, pushed, started) && t in threads && i < |threads[t].queue|
    ensures var q := threads[t].queue;
            forall k: nat :: Served(hash, Popped(threads, t, i), pushed, started + [q[i]], k) <==>
                             Served(hash, threads, pushed, started, k) && !Overtakes(q, i, Key(k))
  {
    var after, q := Popped(threads, t, i), threads[t].queue;
    assert Rising(q) && Rising(pushed);
    hide Conserved, Of, OnePoa, Rising;
    forall k: nat
      ensures Served(hash, after, pushed, started + [q[i]], k) <==>
              Served(hash, threads, pushed, started, k) && !Overtakes(q, i, Key(k))
    {
      if k in hash && hash[k] == t {
        StartIsInOrder(q, i, Key(k), pushed, started);
      } else {
        assert q[i] in q && q[i].key != Key(k);
        OfAppend(started, [q[i]], Key(k));
        OfOne(q[i], Key(k));
        assert Of(started, Key(k)) + [] == Of(started, Key(k));
      }
    }
  }

  /** With one POA for a key there is nothing to overtake. */
  lemma NothingOvertaken(threads: map<nat, Thread>, t: nat, i: nat, pushed: seq<Req>, started: seq<Req>, k: nat)
    requires Conserved(threads, pushed, started) && t in threads && i < |threads[t].queue| && FirstOfKey(threads[t].queue, i)
    requires OnePoa(pushed, Key(k))
    ensures !Overtakes(threads[t].queue, i, Key(k))
  {
    hide Conserved;
    QueuedIsPushed(threads, t, pushed, started);
    var q := threads[t].queue;
    forall j | 0 <= j < i && q[i].key == Key(k) ensures q[j].key != Key(k) {
      SameKeySamePoa(pushed, q[j], q[i], Key(k));
    }
  }

  lemma QueuedIsPushed(threads: map<nat, Thread>, t: nat, pushed: seq<Req>, started: seq<Req>)
    requires Conserved(threads, pushed, started) && t in threads
    ensures forall r :: r in threads[t].queue ==> r in pushed
  {
    forall r | r in threads[t].queue ensures r in pushed {
      assert Waiting(threads, r);
    }
  }

  lemma SameKeySamePoa(s: seq<Req>, a: Req, b: Req, k: Key)
    requires OnePoa(s, k) && a in s && b in s && b.key == k
    ensures a.key == k ==> a.poa == b.poa
  {
  }

  // ------------------------------------------------------------ a record comes and goes

  function Fresh(keys: seq<nat>): Thread
  {
    Thread(keys, [], [], [], [], NotLooking)
  }

  lemma FreshConserves(threads: map<nat, Thread>, t: nat, keys: seq<nat>, pushed: seq<Req>, started: seq<Req>)
    requires Conserved(threads, pushed, started) && t !in threads
    ensures Conserved(threads[t := Fresh(keys)], pushed, started)
  {
    var after := threads[t := Fresh(keys)];
    forall r ensures Waiting(after, r) <==> Waiting(threads, r) {
      if Waiting(threads, r) {
        var u :| u in threads && r in threads[u].queue;
        assert r in after[u].queue;
      }
    }
  }

  lemma FreeConserves(threads: map<nat, Thread>, t: nat, pushed: seq<Req>, started: seq<Req>)
    requires Conserved(threads, pushed, started) && t in threads && threads[t].queue == []
    ensures Conserved(threads - {t}, pushed, started)
  {
    var after := threads - {t};
    forall r ensures Waiting(after, r) <==> Waiting(threads, r) {
      if Waiting(threads, r) {
        var u :| u in threads && r in threads[u].queue;
        assert u in after && r in after[u].queue;
      }
    }
  }

  /** A key gets the record `t`, where nothing of that key waits. */
  lemma NewKeyInOrder(hash: map<nat, nat>, threads: map<nat, Thread>, threads2: map<nat, Thread>, key: nat, t: nat,
                      pushed: seq<Req>, started: seq<Req>)
    requires KeysAgree(hash, threads) && Routed(hash, threads)
    requires key !in hash && t in threads2 && forall u :: u in threads ==> u in threads2 && threads2[u].queue == threads[u].queue
    requires t in threads || threads2[t].queue == []
    ensures forall k: nat :: Served(hash[key := t], threads2, pushed, started, k) <==> Served(hash, threads, pushed, started, k)
  {
    hide Of, OnePoa;
    forall k: nat
      ensures Served(hash[key := t], threads2, pushed, started, k) <==> Served(hash, threads, pushed, started, k)
    {
      if k == key {
        OfNone(threads2[t].queue, Key(k));
        OfNone([], Key(k));
      }
    }
  }

  /** Only the queues matter to what is waiting. */
  lemma SameQueues(threads: map<nat, Thread>, t: nat, x: Thread, pushed: seq<Req>, started: seq<Req>)
    requires Conserved(threads, pushed, started) && t in threads && x.queue == threads[t].queue
    ensures Conserved(threads[t := x], pushed, started)
  {
    var after := threads[t := x];
    assert forall u :: u in threads ==> after[u].queue == threads[u].queue;
    forall r ensures Waiting(after, r) <==> Waiting(threads, r) {
      if Waiting(threads, r) {
        var u :| u in threads && r in threads[u].queue;
        assert r in after[u].queue;
      }
      if Waiting(after, r) {
        var u :| u in after && r in after[u].queue;
        assert r in threads[u].queue;
      }
    }
  }

  /** One record changes, keeping its keys and taking no request that belongs elsewhere. */
  lemma Replace(hash: map<nat, nat>, threads: map<nat, Thread>, t: nat, x: Thread)
    requires KeysAgree(hash, threads) && Routed(hash, threads) && AllSteady(threads) && t in threads
    requires x.keys == threads[t].keys && Steady(x)
    requires forall r :: r in x.queue && r.key.Key? ==> r in threads[t].queue || (r.key.id in hash && hash[r.key.id] == t)
    ensures KeysAgree(hash, threads[t := x]) && Routed(hash, threads[t := x]) && AllSteady(threads[t := x])
  {
  }

  lemma AddKey(hash: map<nat, nat>, threads: map<nat, Thread>, t: nat, key: nat)
    requires KeysAgree(hash, threads) && Routed(hash, threads) && AllSteady(threads) && t in threads && key !in hash
    ensures var x := threads[t];
            var after := threads[t := Thread([key] + x.keys, x.queue, x.asyncEnts, x.policies, x.handlers, x.choice)];
            KeysAgree(hash[key := t], after) && Routed(hash[key := t], after) && AllSteady(after)
  {
    var x := threads[t];
    var y := Thread([key] + x.keys, x.queue, x.asyncEnts, x.policies, x.handlers, x.choice);
    var after := threads[t := y];
    assert Steady(y) by { assert Steady(x); }
    forall u, k | u in after && k in after[u].keys ensures k in hash[key := t] && hash[key := t][k] == u {
      assert (k == key && u == t) || k in threads[u].keys;
    }
  }

  lemma FreshKeeps(hash: map<nat, nat>, threads: map<nat, Thread>, t: nat, keys: seq<nat>, pushed: seq<Req>, started: seq<Req>)
    requires KeysAgree(hash, threads) && Routed(hash, threads) && AllSteady(threads)
    requires t !in threads && |keys| <= 1 && (keys != [] ==> keys[0] !in hash)
    ensures var hash2, after := if keys == [] then hash else hash[keys[0] := t], threads[t := Fresh(keys)];
            && KeysAgree(hash2, after) && Routed(hash2, after) && AllSteady(after)
            && forall k: nat :: Served(hash2, after, pushed, started, k) <==> Served(hash, threads, pushed, started, k)
  {
    hide Of, OnePoa;
    var after := threads[t := Fresh(keys)];
    if keys != [] {
      NewKeyInOrder(hash, threads, after, keys[0], t, pushed, started);
    } else {
      assert forall k: nat :: QueueOf(hash, after, k) == QueueOf(hash, threads, k);
    }
  }

  /** The policy that chose a request forbids the POA of an earlier waiting one of its key. */
  ghost predicate PassesOver(x: Thread, k: Key)
  {
    && x.choice.At? && x.choice.index < |x.queue| && x.policies != [] && x.queue[x.choice.index].key == k
    && exists j :: 0 <= j < x.choice.index && x.queue[j].key == k && x.queue[j].poa !in x.policies[0]
  }

  class Pool {
    /** giop_pool_hash. */
    var hash: map<nat, nat>
    /** The living records. */
    var threads: map<nat, Thread>
    /** Histories: the requests in the order of their pushes, and of their starts. */
    var pushed: seq<Req>
    ghost var started: seq<Req>

    ghost predicate Valid()
      reads this
    {
      && KeysAgree(hash, threads) && Routed(hash, threads) && AllSteady(threads)
      && Conserved(threads, pushed, started) && InOrder(hash, threads, pushed, started)
    }

    /** The requests of `k` have been started in the order of their pushes. */
    ghost predicate Ordered(k: nat)
      reads this
    {
      Served(hash, threads, pushed, started, k)
    }

    constructor ()
      ensures Valid() && hash == map[] && threads == map[] && pushed == [] && started == [] && forall k: nat :: Ordered(k)
    {
      hash, threads, pushed, started := map[], map[], [], [];
    }

    lemma SteadyAt(t: nat)
      requires Valid() && t in threads
      ensures Steady(threads[t])
    {
    }

    /** giop_thread_new; the record's address is any that is free. */
    method NewThread(keys: seq<nat>) returns (t: nat)
      requires Valid() && |keys| <= 1 && (keys != [] ==> keys[0] !in hash)
      modifies `hash, `threads
      ensures Valid() && t !in old(threads) && threads == old(threads)[t := Fresh(keys)]
      ensures hash == if keys == [] then old(hash) else old(hash)[keys[0] := t]
      ensures forall k: nat :: Ordered(k) <==> old(Ordered(k))
    {
      hide Conserved, Of, OnePoa, KeysAgree, Routed, AllSteady;
      t :| t !in threads by {
        var top := AboveAll(threads.Keys);
        assert top !in threads;
      }
      FreshConserves(threads, t, keys, pushed, started);
      FreshKeeps(hash, threads, t, keys, pushed, started);
      threads := threads[t := Fresh(keys)];
      if keys != [] {
        hash := hash[keys[0] := t];
      }
    }

    /** giop_thread_request_push_key: under the pool lock throughout. */
    method PushKey(key: Key, poa: nat) returns (t: nat)
      requires Valid()
      modifies `hash, `threads, `pushed
      ensures Valid() && pushed == old(pushed) + [Req(key, poa, |old(pushed)|)]
      ensures var r := Req(key, poa, |old(pushed)|);
              if key.Key? && key.id in old(hash) then
                t == old(hash)[key.id] && hash == old(hash) && t in old(threads) && threads == Pushed(old(threads), t, r)
              else
                var keys := if key.Key? then [key.id] else [];
                && t !in old(threads) && threads == Pushed(old(threads)[t := Fresh(keys)], t, r)
                && hash == if key.Key? then old(hash)[key.id := t] else old(hash)
      ensures forall k: nat :: Ordered(k) <==> old(Ordered(k))
    {
      hide Conserved, Of, OnePoa;
      if key.Key? && key.id in hash {
        t := hash[key.id];
      } else {
        t := NewThread(if key.Key? then [key.id] else []);
      }
      Push(t, Req(key, poa, |pushed|));
    }

    /** giop_thread_request_push, with the request's record locked. */
    method Push(t: nat, r: Req)
      requires Valid() && t in threads && r.serial == |pushed|
      requires r.key.Key? ==> r.key.id in hash && hash[r.key.id] == t
      modifies `threads, `pushed
      ensures Valid() && pushed == old(pushed) + [r] && threads == Pushed(old(threads), t, r)
      ensures forall k: nat :: Ordered(k) <==> old(Ordered(k))
    {
      hide Conserved, Of, OnePoa, InOrder, KeysAgree, Routed, AllSteady;
      SteadyAt(t);
      Replace(hash, threads, t, Pushed(threads, t, r)[t]);
      PushConserves(threads, t, r, pushed, started);
      PushInOrder(hash, threads, t, r, pushed, started);
      threads := Pushed(threads, t, r);
      pushed := pushed + [r];
    }

    /** giop_thread_key_add: a key in use is an assertion failure. */
    method KeyAdd(t: nat, key: nat)
      requires Valid() && t in threads && key !in hash
      modifies `hash, `threads
      ensures Valid() && hash == old(hash)[key := t]
      ensures var x := old(threads)[t];
              threads == old(threads)[t := Thread([key] + x.keys, x.queue, x.asyncEnts, x.policies, x.handlers, x.choice)]
      ensures forall k: nat :: Ordered(k) <==> old(Ordered(k))
    {
      hide Conserved, Of, OnePoa, Served, KeysAgree, Routed, AllSteady;
      var x := threads[t];
      AddKey(hash, threads, t, key);
      SameQueues(threads, t, Thread([key] + x.keys, x.queue, x.asyncEnts, x.policies, x.handlers, x.choice), pushed, started);
      threads := threads[t := Thread([key] + x.keys, x.queue, x.asyncEnts, x.policies, x.handlers, x.choice)];
      NewKeyInOrder(hash, old(threads), threads, key, t, pushed, started);
      hash := hash[key := t];
    }

    /** first_valid_request, read by the record's own thread before it takes the lock. */
    method Look(t: nat)
      requires Valid() && t in threads && threads[t].choice.NotLooking?
      modifies `threads
      ensures Valid() && threads.Keys == old(threads.Keys)
      ensures var x := old(threads)[t];
              var i := if x.policies == [] then 0 else FirstAllowed(x.queue, x.policies[0]);
              threads == old(threads)[t := Thread(x.keys, x.queue, x.asyncEnts, x.policies, x.handlers,
                if x.policies == [] then NoPolicy else if i == |x.queue| then NoneAllowed else At(i))]
      ensures forall k: nat :: Ordered(k) <==> old(Ordered(k))
    {
      var x := threads[t];
      var choice;
      if x.policies == [] {
        choice := NoPolicy;
      } else {
        var i := FirstAllowed(x.queue, x.policies[0]);
        choice := if i == |x.queue| then NoneAllowed else At(i);
      }
      Update(t, Thread(x.keys, x.queue, x.asyncEnts, x.policies, x.handlers, choice));
    }

    /** A step of the record's own thread that leaves its queue alone. */
    method Update(t: nat, x: Thread)
      requires Valid() && t in threads
      requires x.keys == threads[t].keys && x.queue == threads[t].queue && Steady(x)
      modifies `threads
      ensures Valid() && threads == old(threads)[t := x]
      ensures forall k: nat :: Ordered(k) <==> old(Ordered(k))
    {
      hide Conserved, Of, OnePoa, KeysAgree, Routed, AllSteady;
      Replace(hash, threads, t, x);
      SameQueues(threads, t, x, pushed, started);
      threads := threads[t := x];
    }

    /** The rest of giop_thread_queue_process up to the handler: take what was found, if anything. */
    method Take(t: nat) returns (taken: bool)
      requires Valid() && t in threads && !threads[t].choice.NotLooking?
      modifies `threads, `started
      ensures Valid()
      ensures var x := old(threads)[t];
              && (taken <==> x.choice.At? || (x.choice.NoPolicy? && x.asyncEnts == [] && x.queue != []))
              && (taken ==>
                    var i := if x.choice.At? then x.choice.index else 0;
                    threads == Popped(old(threads), t, i) && started == old(started) + [x.queue[i]])
              && (!taken ==>
                    var entry := x.choice.NoPolicy? && x.asyncEnts != [];
                    && started == old(started)
                    && threads == old(threads)[t := Thread(x.keys, x.queue, if entry then x.asyncEnts[1..] else x.asyncEnts, x.policies,
                         if entry then x.handlers + [|x.policies|] else x.handlers, NotLooking)])
      // the key started falls out of order exactly if the policy forbids an earlier request of it
      ensures var x := old(threads)[t];
              forall k: nat :: Ordered(k) <==> old(Ordered(k)) && !PassesOver(x, Key(k))
    {
      var x := threads[t];
      taken := false;
      if x.choice.NoPolicy? && x.asyncEnts != [] {
        Update(t, Thread(x.keys, x.queue, x.asyncEnts[1..], x.policies, x.handlers + [|x.policies|], NotLooking));
      } else if x.choice.NoPolicy? && x.queue != [] {
        Start(t, 0);
        taken := true;
      } else if x.choice.At? {
        Start(t, x.choice.index);
        taken := true;
      } else {
        Update(t, Thread(x.keys, x.queue, x.asyncEnts, x.policies, x.handlers, NotLooking));
      }
    }

    /**
     giop_thread_queue_process when nobody steps in between: it finds something
     to do exactly if giop_thread_queue_empty_T says that there is something.
     */
    method Process(t: nat) returns (taken: bool)
      requires Valid() && t in threads && threads[t].choice.NotLooking?
      modifies `threads, `started
      ensures Valid() && t in threads
      ensures threads[t] == old(threads)[t] && started == old(started) <==> QueueEmpty(old(threads)[t])
    {
      hide Conserved, Of, OnePoa, KeysAgree, Routed, AllSteady, Served, Steady, Overtakes;
      Look(t);
      taken := Take(t);
    }

    method Start(t: nat, i: nat)
      requires Valid() && t in threads && i < |threads[t].queue| && FirstOfKey(threads[t].queue, i)
      modifies `threads, `started
      ensures Valid() && threads == Popped(old(threads), t, i)
      ensures started == old(started) + [old(threads)[t].queue[i]]
      ensures forall k: nat :: Ordered(k) <==> old(Ordered(k)) && !Overtakes(old(threads)[t].queue, i, Key(k))
    {
      hide Conserved, Of, OnePoa, KeysAgree, Routed, AllSteady, FirstOfKey, Served, Overtakes;
      SteadyAt(t);
      Replace(hash, threads, t, Popped(threads, t, i)[t]);
      PopConserves(threads, t, i, pushed, started);
      PopInOrder(hash, threads, t, i, pushed, started);
      forall k: nat | OnePoa(pushed, Key(k)) ensures !Overtakes(threads[t].queue, i, Key(k)) {
        NothingOvertaken(threads, t, i, pushed, started, k);
      }
      started := started + [threads[t].queue[i]];
      threads := Popped(threads, t, i);
    }

    /** A handler narrows what may run inside it, and undoes that before it returns. */
    method PushPolicy(t: nat, poas: set<nat>)
      requires Valid() && t in threads && threads[t].handlers != [] && threads[t].choice.NotLooking?
      modifies `threads
      ensures Valid()
      ensures var x := old(threads)[t]; threads == old(threads)[t := Thread(x.keys, x.queue, x.asyncEnts, [poas] + x.policies, x.handlers, x.choice)]
      ensures forall k: nat :: Ordered(k) <==> old(Ordered(k))
    {
      var x := threads[t];
      SteadyAt(t);
      Update(t, Thread(x.keys, x.queue, x.asyncEnts, [poas] + x.policies, x.handlers, x.choice));
    }

    method PopPolicy(t: nat)
      requires Valid() && t in threads && threads[t].handlers != [] && threads[t].choice.NotLooking?
      requires threads[t].policies != []
      modifies `threads
      ensures Valid()
      ensures var x := old(threads)[t]; threads == old(threads)[t := Thread(x.keys, x.queue, x.asyncEnts, x.policies[1..], x.handlers, x.choice)]
      ensures forall k: nat :: Ordered(k) <==> old(Ordered(k))
    {
      var x := threads[t];
      SteadyAt(t);
      Update(t, Thread(x.keys, x.queue, x.asyncEnts, x.policies[1..], x.handlers, x.choice));
    }

    method Return(t: nat)
      requires Valid() && t in threads && threads[t].handlers != [] && threads[t].choice.NotLooking?
      requires |threads[t].policies| == threads[t].handlers[|threads[t].handlers| - 1]
      modifies `threads
      ensures Valid()
      ensures var x := old(threads)[t]; threads == old(threads)[t := Thread(x.keys, x.queue, x.asyncEnts, x.policies, x.handlers[..|x.handlers| - 1], x.choice)]
      ensures forall k: nat :: Ordered(k) <==> old(Ordered(k))
    {
      var x := threads[t];
      SteadyAt(t);
      Update(t, Thread(x.keys, x.queue, x.asyncEnts, x.policies, x.handlers[..|x.handlers| - 1], x.choice));
    }

    /** giop_invoke_async for another thread's entry. */
    method PushAsync(t: nat, ent: nat)
      requires Valid() && t in threads
      modifies `threads
      ensures Valid()
      ensures var x := old(threads)[t]; threads == old(threads)[t := Thread(x.keys, x.queue, [ent] + x.asyncEnts, x.policies, x.handlers, x.choice)]
      ensures forall k: nat :: Ordered(k) <==> old(Ordered(k))
    {
      var x := threads[t];
      SteadyAt(t);
      Update(t, Thread(x.keys, x.queue, [ent] + x.asyncEnts, x.policies, x.handlers, x.choice));
    }

    /** g_hash_table_remove for each key. */
    method RemoveKeys(keys: seq<nat>)
      modifies `hash
      ensures forall a :: a in hash <==> a in old(hash) && a !in keys
      ensures forall a :: a in hash ==> hash[a] == old(hash)[a]
    {
      var k := 0;
      while k < |keys|
        invariant k <= |keys|
        invariant forall a :: a in hash <==> a in old(hash) && a !in keys[..k]
        invariant forall a :: a in hash ==> hash[a] == old(hash)[a]
      {
        hash := hash - {keys[k]};
        k := k + 1;
      }
      assert keys[..k] == keys;
    }

    /**
     The check of giop_request_handler_thread between requests, under both
     locks: an idle record gives up its keys and is freed.
     */
    method CheckDone(t: nat) returns (done: bool)
      requires Valid() && t in threads && threads[t].handlers == [] && threads[t].choice.NotLooking?
      modifies `hash, `threads
      ensures Valid()
      ensures done <==> old(threads)[t].queue == [] && old(threads)[t].asyncEnts == []
      ensures !done ==> hash == old(hash) && threads == old(threads)
      ensures done ==> threads == old(threads) - {t} && forall k :: k in hash ==> hash[k] != t
      ensures forall k :: k in old(hash) && old(hash)[k] != t ==> k in hash && hash[k] == old(hash)[k]
      ensures forall k: nat :: Ordered(k) <==> old(Ordered(k))
    {
      SteadyAt(t);
      var x := threads[t];
      done := QueueEmpty(x);
      if done {
        hide Conserved, Of, OnePoa, AllSteady, KeysAgree, Routed, Served, Steady;
        ghost var before := hash;
        RemoveKeys(x.keys);
        FreeConserves(threads, t, pushed, started);
        FreeKeeps(before, hash, threads, t, pushed, started);
        threads := threads - {t};
      }
    }
  }

  /** giop_thread_queue_empty_T. */
  predicate QueueEmpty(x: Thread)
  {
    if x.policies == [] then x.queue == [] && x.asyncEnts == []
    else FirstAllowed(x.queue, x.policies[0]) == |x.queue|
  }

  lemma FreeKeeps(hash: map<nat, nat>, hash2: map<nat, nat>, threads: map<nat, Thread>, t: nat,
                  pushed: seq<Req>, started: seq<Req>)
    requires KeysAgree(hash, threads) && Routed(hash, threads) && AllSteady(threads)
    requires t in threads && threads[t].queue == []
    requires forall a :: a in hash2 <==> a in hash && a !in threads[t].keys
    requires forall a :: a in hash2 ==> hash2[a] == hash[a]
    ensures KeysAgree(hash2, threads - {t}) && Routed(hash2, threads - {t}) && AllSteady(threads - {t})
    ensures forall k: nat :: Served(hash2, threads - {t}, pushed, started, k) <==> Served(hash, threads, pushed, started, k)
    ensures forall k :: k in hash && hash[k] != t ==> k in hash2
    ensures forall k :: k in hash2 ==> hash2[k] != t
  {
    hide Of, OnePoa;
    FreeStructure(hash, hash2, threads, t);
    var after := threads - {t};
    forall k: nat
      ensures QueueOf(hash2, after, k) == QueueOf(hash, threads, k)
    {
      if k in hash && hash[k] != t {
        assert k in threads[hash[k]].keys && k !in threads[t].keys;
      }
    }
  }

  lemma FreeStructure(hash: map<nat, nat>, hash2: map<nat, nat>, threads: map<nat, Thread>, t: nat)
    requires KeysAgree(hash, threads) && Routed(hash, threads) && AllSteady(threads)
    requires t in threads && threads[t].queue == []
    requires forall a :: a in hash2 <==> a in hash && a !in threads[t].keys
    requires forall a :: a in hash2 ==> hash2[a] == hash[a]
    ensures KeysAgree(hash2, threads - {t}) && Routed(hash2, threads - {t}) && AllSteady(threads - {t})
    ensures forall k :: k in hash && hash[k] != t ==> k in hash2
    ensures forall k :: k in hash2 ==> hash2[k] != t
  {
    hide Steady;
    var after := threads - {t};
    assert forall u :: u in after ==> after[u] == threads[u];
    forall k | k in hash2 ensures hash2[k] in after && k in after[hash2[k]].keys {
      assert k !in threads[t].keys && k in threads[hash[k]].keys;
    }
    forall u, k | u in after && k in after[u].keys ensures k in hash2 && hash2[k] == u {
      assert k in threads[u].keys && hash[k] == u;
    }
    forall u, r | u in after && r in after[u].queue && r.key.Key? ensures r.key.id in hash2 && hash2[r.key.id] == u {
      assert r in threads[u].queue;
    }
  }

  /**
   A run in which a key with two POAs falls out of order: inside a handler that
   allows only POA 2, the second of two waiting requests starts before the first.
   By Take no later start can put that right.
   */
  method OtherPoaOvertakes() returns (p: Pool)
    ensures fresh(p) && p.Valid() && !p.Ordered(7)
    ensures p.pushed == [Req(Key(7), 1, 0), Req(Key(7), 1, 1), Req(Key(7), 2, 2)]
    ensures p.started == [Req(Key(7), 1, 0), Req(Key(7), 2, 2)]
  {
    var t;
    p, t := InsideHandler();
    hide Conserved, Of, OnePoa, InOrder, KeysAgree, Routed, AllSteady, Served, Steady;
    var b, c := Req(Key(7), 1, 1), Req(Key(7), 2, 2);
    var t1 := p.PushKey(Key(7), 1);
    assert t1 == t && p.threads[t] == Thread([7], [b], [], [{2}], [0], NotLooking);
    var t2 := p.PushKey(Key(7), 2);
    assert t2 == t && p.threads[t] == Thread([7], [b, c], [], [{2}], [0], NotLooking);
    assert FirstAllowed([b, c], {2}) == 1 by {
      assert [b, c][1..] == [c];
      assert FirstAllowed([c], {2}) == 0;
    }
    p.Look(t);
    assert p.threads[t] == Thread([7], [b, c], [], [{2}], [0], At(1));
    assert [b, c][0].poa !in [{2}][0] && PassesOver(p.threads[t], Key(7));
    var taken := p.Take(t);
  }

  /** A first request is running, and its handler allows only POA 2. */
  method InsideHandler() returns (p: Pool, t: nat)
    ensures fresh(p) && p.Valid() && p.hash == map[7 := t] && p.pushed == [Req(Key(7), 1, 0)] && p.started == p.pushed
    ensures p.threads == map[t := Thread([7], [], [], [{2}], [0], NotLooking)]
  {
    hide Conserved, Of, OnePoa, InOrder, KeysAgree, Routed, AllSteady, Served, Steady;
    p := new Pool();
    var a := Req(Key(7), 1, 0);
    t := p.PushKey(Key(7), 1);
    assert p.threads[t] == Thread([7], [a], [], [], [], NotLooking);
    p.Look(t);
    assert p.threads[t] == Thread([7], [a], [], [], [], NoPolicy);
    var taken := p.Take(t);
    assert p.threads[t] == Thread([7], [], [], [], [0], NotLooking);
    p.PushPolicy(t, {2});
    assert p.threads[t] == Thread([7], [], [], [{2}], [0], NotLooking);
  }
}
