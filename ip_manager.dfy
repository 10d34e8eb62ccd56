/** lib/tinyback/ip_manager.rb: a pool of name-server addresses for a list
    of hosts, looked up again when it is older than five minutes and handed
    out round-robin.  The lookups themselves are the parameter `resolved`. */
module IpManager {
  import opened Wrappers

  /** Seconds a looked-up pool stays in use. */
  const Ttl: real := 300.0

  // ---------------------------------------------------------------------------
  // `ips.uniq`

  /** The addresses of `xs` without repeats, each where it first occurs. */
  function Uniq(xs: seq<string>): (u: seq<string>)
    ensures forall x :: x in u <==> x in xs
    ensures |u| <= |xs|
  {
    if |xs| == 0 then []
    else
      var u := Uniq(xs[..|xs| - 1]);
      if xs[|xs| - 1] in u then u else u + [xs[|xs| - 1]]
  }

  /** The position of the first occurrence of `x` in `xs`. */
  function FirstIndex(xs: seq<string>, x: string): (i: nat)
    requires x in xs
    ensures i < |xs| && xs[i] == x && x !in xs[..i]
  {
    if xs[0] == x then 0
    else
      var i := FirstIndex(xs[1..], x);
      assert xs[..i + 1] == [xs[0]] + xs[1..][..i];
      i + 1
  }

  predicate NoRepeats(u: seq<string>) {
    forall i, j :: 0 <= i < j < |u| ==> u[i] != u[j]
  }

  lemma {:induction false} FirstIndexPrefix(xs: seq<string>, n: nat, x: string)
    requires n <= |xs| && x in xs[..n]
    ensures FirstIndex(xs[..n], x) == FirstIndex(xs, x)
  {
    assert xs[..n][0] == xs[0];
    if xs[0] != x {
      assert xs[..n][1..] == xs[1..][..n - 1];
      FirstIndexPrefix(xs[1..], n - 1, x);
    }
  }

  /** `uniq` returns no address twice, and keeps the addresses in the order
      of their first occurrences. */
  lemma {:induction false} UniqFirsts(xs: seq<string>)
    ensures NoRepeats(Uniq(xs))
    ensures forall i, j :: 0 <= i < j < |Uniq(xs)| ==> FirstIndex(xs, Uniq(xs)[i]) < FirstIndex(xs, Uniq(xs)[j])
  {
    if |xs| > 0 {
      var init := xs[..|xs| - 1];
      var x := xs[|xs| - 1];
      var u := Uniq(init);
      UniqFirsts(init);
      forall y | y in u ensures FirstIndex(xs, y) == FirstIndex(init, y) && FirstIndex(init, y) < |init| {
        assert xs[..|xs| - 1] == init;
        FirstIndexPrefix(xs, |xs| - 1, y);
      }
      if x !in u {
        assert x !in init;
        assert forall m :: 0 <= m < |init| ==> init[m] == xs[m];
        assert FirstIndex(xs, x) == |xs| - 1;
        var u' := u + [x];
        assert Uniq(xs) == u' && u' == Uniq(xs);
        forall i, j | 0 <= i < j < |u'| ensures FirstIndex(xs, u'[i]) < FirstIndex(xs, u'[j]) && u'[i] != u'[j] {
          assert u'[i] == u[i];
          if j < |u| {
            assert u'[j] == u[j];
          }
        }
      }
    }
  }

  // ---------------------------------------------------------------------------
  // The rotation of `get_ip`

  /** `ip = @ips.pop; @ips.unshift ip`: the pool afterwards and the address
      handed out.  An empty pool hands out nil and is left holding nil. */
  function Rotate(pool: seq<Option<string>>): (r: (seq<Option<string>>, Option<string>))
    ensures |r.0| == if |pool| == 0 then 1 else |pool|
    ensures r.0[0] == r.1
    ensures |pool| == 0 ==> r == ([None], None)
    ensures |pool| > 0 ==> r.1 == pool[|pool| - 1] && r.0[1..] == pool[..|pool| - 1]
    ensures |pool| > 0 ==> multiset(r.0) == multiset(pool)
  {
    if |pool| == 0 then ([None], None)
    else
      assert pool == pool[..|pool| - 1] + [pool[|pool| - 1]];
      ([pool[|pool| - 1]] + pool[..|pool| - 1], pool[|pool| - 1])
  }

  /** `k` calls without a lookup: the pool afterwards and the addresses
      handed out, in order. */
  function RotateTimes(pool: seq<Option<string>>, k: nat): (r: (seq<Option<string>>, seq<Option<string>>))
    ensures |r.1| == k
  {
    if k == 0 then (pool, [])
    else
      var (p, handed) := RotateTimes(pool, k - 1);
      var (p', ip) := Rotate(p);
      (p', handed + [ip])
  }

  /** A rotation keeps the addresses of a non-empty pool and its size. */
  lemma RotateKeeps(pool: seq<Option<string>>)
    requires |pool| > 0
    ensures multiset(Rotate(pool).0) == multiset(pool)
  {
    assert pool == pool[..|pool| - 1] + [pool[|pool| - 1]];
  }

  /** After `k` rotations of a pool of `n >= k` addresses the last `k` have
      moved to the front, and the addresses handed out are the pool read
      from its end. */
  lemma {:induction false} RotateTimesShape(pool: seq<Option<string>>, k: nat)
    requires k <= |pool|
    ensures RotateTimes(pool, k).0 == pool[|pool| - k..] + pool[..|pool| - k]
    ensures forall i :: 0 <= i < k ==> RotateTimes(pool, k).1[i] == pool[|pool| - 1 - i]
  {
    if k > 0 {
      RotateTimesShape(pool, k - 1);
      RotateShapeStep(pool, k, RotateTimes(pool, k - 1).0);
    }
  }

  /** The `k`-th rotation takes the `k`-th address from the end of the
      original pool to the front. */
  lemma RotateShapeStep(pool: seq<Option<string>>, k: nat, p: seq<Option<string>>)
    requires 0 < k <= |pool|
    requires p == pool[|pool| - k + 1..] + pool[..|pool| - k + 1]
    ensures Rotate(p).0 == pool[|pool| - k..] + pool[..|pool| - k]
    ensures Rotate(p).1 == pool[|pool| - k]
  {
    var n := |pool|;
    assert |p| == n;
    assert p[n - 1] == pool[n - k];
    assert p[..n - 1] == pool[n - k + 1..] + pool[..n - k];
    assert [pool[n - k]] + pool[n - k + 1..] == pool[n - k..];
  }

  /** Round robin: `n` calls on a pool of `n` addresses with no lookup in
      between hand out every address exactly once, last one first, and leave
      the pool as it was. */
  lemma RoundRobin(pool: seq<Option<string>>)
    ensures RotateTimes(pool, |pool|).0 == pool
    ensures forall i :: 0 <= i < |pool| ==> RotateTimes(pool, |pool|).1[i] == pool[|pool| - 1 - i]
    ensures multiset(RotateTimes(pool, |pool|).1) == multiset(pool)
  {
    var n := |pool|;
    RotateTimesShape(pool, n);
    assert pool[n - n..] + pool[..n - n] == pool;
    var handed := RotateTimes(pool, n).1;
    assert handed == Reverse(pool) by {
      ReverseIndex(pool);
    }
    ReverseKeeps(pool);
  }

  function Reverse(s: seq<Option<string>>): (r: seq<Option<string>>)
    ensures |r| == |s|
  {
    if |s| == 0 then [] else Reverse(s[1..]) + [s[0]]
  }

  lemma {:induction false} ReverseIndex(s: seq<Option<string>>)
    ensures forall i :: 0 <= i < |s| ==> Reverse(s)[i] == s[|s| - 1 - i]
  {
    if |s| > 0 {
      ReverseIndex(s[1..]);
    }
  }

  lemma {:induction false} ReverseKeeps(s: seq<Option<string>>)
    ensures multiset(Reverse(s)) == multiset(s)
  {
    if |s| > 0 {
      ReverseKeeps(s[1..]);
      assert s == [s[0]] + s[1..];
    }
  }

  // ---------------------------------------------------------------------------
  // The manager

  /** Whether `get_ip` at time `now` looks the pool up again: never looked up,
      or looked up more than `Ttl` seconds ago. */
  predicate Stale(time: Option<real>, now: real) {
    time.None? || time.value + Ttl < now
  }

  function Wrap(xs: seq<string>): (r: seq<Option<string>>)
    ensures |r| == |xs| && forall i :: 0 <= i < |xs| ==> r[i] == Some(xs[i])
  {
    if |xs| == 0 then [] else [Some(xs[0])] + Wrap(xs[1..])
  }

  class IPManager {
    /** `@hosts`. */
    const hosts: seq<string>
    /** `@time`: when the pool was last looked up, nil before the first time. */
    var time: Option<real>
    /** `@ips`. */
    var ips: seq<Option<string>>

    constructor(hosts: seq<string>)
      requires |hosts| >= 1
      ensures this.hosts == hosts && time.None? && ips == []
    {
      this.hosts := hosts;
      time := None;
      ips := [];
    }

    /** `IPManager.new(*hosts)`: none when no host is given (the
        ArgumentError). */
    static method Open(hosts: seq<string>) returns (m: Option<IPManager>)
      ensures m.None? <==> |hosts| < 1
      ensures m.Some? ==> fresh(m.value) && m.value.hosts == hosts && m.value.time.None?
    {
      if |hosts| < 1 {
        return None;
      }
      var manager := new IPManager(hosts);
      return Some(manager);
    }

    /** `get_ip` at time `now`; `resolved` is what the lookups of `resolve`
        find, before duplicates are removed. */
    method GetIp(now: real, resolved: seq<string>) returns (ip: Option<string>)
      modifies this
      ensures var pool := if Stale(old(time), now) then Wrap(Uniq(resolved)) else old(ips);
        (ips, ip) == Rotate(pool)
      ensures time == if Stale(old(time), now) then Some(now) else old(time)
    {
      if time.None? || time.value + Ttl < now {
        time := Some(now);
        ips := Wrap(Uniq(resolved));
      }
      if |ips| == 0 {
        ip := None;
        ips := [None];
      } else {
        ip := ips[|ips| - 1];
        ips := [ip] + ips[..|ips| - 1];
      }
    }
  }

  /** A fresh pool is refreshed on the first call, and a pool looked up at
      `t` is kept up to and including `t + Ttl`. */
  lemma StaleWhen(t: real, now: real)
    ensures Stale(None, now)
    ensures !Stale(Some(t), now) <==> now <= t + Ttl
  {
  }
}
