/** Collecting the replies of a scan: a bounded dictionary keyed by MAC, then a sort. */
module Collection {
  import opened Results
  import opened Cipher
  import opened Tlv
  import opened Escp

  const SWITCH_PORT: int := 29808
  const MAX_RESPONSES: nat := 64

  // ---------- the sort key ----------

  /** Python's `<` on strings, by code point. */
  predicate StringLess(a: string, b: string) {
    b != [] && (a == [] || a[0] < b[0] || (a[0] == b[0] && StringLess(a[1..], b[1..])))
  }

  /** The strings agree before i, where a ends or has the smaller character. */
  ghost predicate DiffersAt(a: string, b: string, i: nat) {
    && i <= |a| && i < |b| && (forall k :: 0 <= k < i ==> a[k] == b[k])
    && (i < |a| ==> a[i] < b[i])
  }

  lemma {:induction false} StringLessMeaning(a: string, b: string)
    ensures StringLess(a, b) <==> exists i: nat :: DiffersAt(a, b, i)
  {
    if a != [] && b != [] && a[0] == b[0] {
      StringLessMeaning(a[1..], b[1..]);
      if i: nat :| DiffersAt(a[1..], b[1..], i) {
        assert forall k | 0 < k < i + 1 :: a[k] == a[1..][k - 1] && b[k] == b[1..][k - 1];
        assert DiffersAt(a, b, i + 1);
      }
      if i: nat :| DiffersAt(a, b, i) {
        assert i > 0;
        assert DiffersAt(a[1..], b[1..], i - 1);
      }
    } else if StringLess(a, b) {
      assert DiffersAt(a, b, 0);
    }
  }

  lemma {:induction false} StringLessIsTotal(a: string, b: string)
    ensures StringLess(a, b) || a == b || StringLess(b, a)
    ensures !(StringLess(a, b) && StringLess(b, a)) && !(a == b && StringLess(a, b))
  {
    if a != [] && b != [] {
      StringLessIsTotal(a[1..], b[1..]);
      assert a == [a[0]] + a[1..] && b == [b[0]] + b[1..];
    }
  }

  lemma {:induction false} StringLessIsTransitive(a: string, b: string, c: string)
    requires StringLess(a, b) && StringLess(b, c)
    ensures StringLess(a, c)
  {
    if a != [] && a[0] == b[0] && b[0] == c[0] {
      StringLessIsTransitive(a[1..], b[1..], c[1..]);
    }
  }

  /** `<` on the keys (model, name, mac) */
  predicate KeyLess(a: DiscoveredSwitch, b: DiscoveredSwitch) {
    StringLess(a.model, b.model) ||
    (a.model == b.model && (StringLess(a.name, b.name) || (a.name == b.name && StringLess(a.mac, b.mac))))
  }

  lemma KeyLessIsOrder(a: DiscoveredSwitch, b: DiscoveredSwitch)
    ensures KeyLess(a, b) || KeyLess(b, a) || (a.model == b.model && a.name == b.name && a.mac == b.mac)
    ensures !(KeyLess(a, b) && KeyLess(b, a)) && !KeyLess(a, a)
  {
    StringLessIsTotal(a.model, b.model);
    StringLessIsTotal(a.name, b.name);
    StringLessIsTotal(a.mac, b.mac);
    StringLessIsTotal(a.model, a.model);
    StringLessIsTotal(a.name, a.name);
    StringLessIsTotal(a.mac, a.mac);
  }

  lemma KeyLessIsTransitive(a: DiscoveredSwitch, b: DiscoveredSwitch, c: DiscoveredSwitch)
    requires KeyLess(a, b) && KeyLess(b, c)
    ensures KeyLess(a, c)
  {
    if StringLess(a.model, b.model) && StringLess(b.model, c.model) {
      StringLessIsTransitive(a.model, b.model, c.model);
    } else if a.model == b.model && b.model == c.model {
      if StringLess(a.name, b.name) && StringLess(b.name, c.name) {
        StringLessIsTransitive(a.name, b.name, c.name);
      } else if a.name == b.name && b.name == c.name {
        StringLessIsTransitive(a.mac, b.mac, c.mac);
      }
    }
  }

  /** Named, so that order is used only where a proof mentions it. */
  ghost predicate Before(s: seq<DiscoveredSwitch>, i: nat, j: nat)
    requires i < |s| && j < |s|
  {
    KeyLess(s[i], s[j])
  }

  ghost predicate Ascending(s: seq<DiscoveredSwitch>) {
    forall i, j :: 0 <= i < j < |s| ==> Before(s, i, j)
  }

  /** A strictly ascending list is determined by its elements. */
  lemma {:induction false} AscendingIsUnique(a: seq<DiscoveredSwitch>, b: seq<DiscoveredSwitch>)
    requires Ascending(a) && Ascending(b)
    requires forall s :: s in a <==> s in b
    ensures a == b
  {
    if a != [] {
      var x := a[0];
      assert x in a && x in b;
    }
    if b != [] {
      var y := b[0];
      assert y in b && y in a;
    }
    if a != [] && b != [] {
      FirstIsLeast(a);
      FirstIsLeast(b);
      KeyLessIsOrder(a[0], b[0]);
      assert a[0] == b[0];
      var a', b' := a[1..], b[1..];
      forall s
        ensures s in a' <==> s in b'
      {
        assert s in a' <==> s in a && s != a[0];
        assert s in b' <==> s in b && s != b[0];
      }
      AscendingIsUnique(a', b');
      assert a == [a[0]] + a' && b == [b[0]] + b';
    }
  }

  lemma FirstIsLeast(s: seq<DiscoveredSwitch>)
    requires Ascending(s) && s != []
    ensures Ascending(s[1..])
    ensures forall x :: x in s[1..] <==> x in s && x != s[0]
    ensures forall x :: x in s && x != s[0] ==> KeyLess(s[0], x)
  {
    forall i, j | 0 <= i < j < |s| - 1
      ensures Before(s[1..], i, j)
    {
      assert Before(s, i + 1, j + 1);
    }
    forall j | 0 < j < |s|
      ensures KeyLess(s[0], s[j]) && s[j] != s[0]
    {
      assert Before(s, 0, j);
      KeyLessIsOrder(s[0], s[j]);
    }
    assert s == [s[0]] + s[1..];
  }

  // ---------- sorting ----------

  ghost predicate MacsDiffer(s: seq<DiscoveredSwitch>, i: nat, j: nat)
    requires i < |s| && j < |s|
  {
    s[i].mac != s[j].mac
  }

  ghost predicate DistinctMacs(s: seq<DiscoveredSwitch>) {
    forall i, j :: 0 <= i < j < |s| ==> MacsDiffer(s, i, j)
  }

  function InsertSwitch(x: DiscoveredSwitch, s: seq<DiscoveredSwitch>): (r: seq<DiscoveredSwitch>)
    ensures |r| == |s| + 1
    ensures forall y :: y in r <==> y == x || y in s
  {
    if s == [] || KeyLess(x, s[0]) then [x] + s
    else
      assert s == [s[0]] + s[1..];
      [s[0]] + InsertSwitch(x, s[1..])
  }

  lemma {:induction false} InsertKeepsOrder(x: DiscoveredSwitch, s: seq<DiscoveredSwitch>)
    requires Ascending(s) && forall y :: y in s ==> y.mac != x.mac
    ensures Ascending(InsertSwitch(x, s))
  {
    var r := InsertSwitch(x, s);
    if s == [] {
    } else {
      FirstIsLeast(s);
      if KeyLess(x, s[0]) {
        forall i, j | 0 <= i < j < |r|
          ensures Before(r, i, j)
        {
          if i > 0 {
            assert Before(s, i - 1, j - 1);
          } else if j > 1 {
            assert Before(s, 0, j - 1);
            KeyLessIsTransitive(x, s[0], s[j - 1]);
          }
        }
      } else {
        var head := s[0];
        assert head in s;
        InsertKeepsOrder(x, s[1..]);
        var rest := InsertSwitch(x, s[1..]);
        KeyLessIsOrder(x, head);
        forall i, j | 0 <= i < j < |r|
          ensures Before(r, i, j)
        {
          if i > 0 {
            assert Before(rest, i - 1, j - 1);
          } else {
            var y := rest[j - 1];
            assert y in rest;
            assert y == x || y in s[1..];
          }
        }
      }
    }
  }

  /** `sorted(discovered.values(), key=...)`; the keys differ because the MACs do. */
  function Sorted(s: seq<DiscoveredSwitch>): (r: seq<DiscoveredSwitch>)
    ensures |r| == |s|
    ensures forall x :: x in r <==> x in s
  {
    if s == [] then []
    else
      assert s == [s[0]] + s[1..];
      InsertSwitch(s[0], Sorted(s[1..]))
  }

  lemma {:induction false} SortedIsAscending(s: seq<DiscoveredSwitch>)
    requires DistinctMacs(s)
    ensures Ascending(Sorted(s))
  {
    if s != [] {
      forall i, j | 0 <= i < j < |s| - 1
        ensures MacsDiffer(s[1..], i, j)
      {
        assert MacsDiffer(s, i + 1, j + 1);
      }
      SortedIsAscending(s[1..]);
      forall y | y in Sorted(s[1..])
        ensures y.mac != s[0].mac
      {
        var k :| 0 <= k < |s| - 1 && s[1..][k] == y;
        assert MacsDiffer(s, 0, k + 1);
      }
      InsertKeepsOrder(s[0], Sorted(s[1..]));
    }
  }

  lemma SortedKeepsDistinct(s: seq<DiscoveredSwitch>)
    requires DistinctMacs(s)
    ensures Ascending(Sorted(s)) && DistinctMacs(Sorted(s))
  {
    SortedIsAscending(s);
    var r := Sorted(s);
    forall i, j | 0 <= i < j < |r|
      ensures MacsDiffer(r, i, j)
    {
      assert Before(r, i, j);
      KeyLessIsOrder(r[i], r[j]);
      var x, y := r[i], r[j];
      assert x in r && y in r;
      var k :| 0 <= k < |s| && s[k] == x;
      var l :| 0 <= l < |s| && s[l] == y;
      assert k < l ==> MacsDiffer(s, k, l);
      assert l < k ==> MacsDiffer(s, l, k);
    }
  }

  // ---------- the dictionary ----------

  /** The position of a MAC in the dictionary's insertion order, or its size. */
  function Find(d: seq<DiscoveredSwitch>, mac: string): (i: nat)
    ensures i <= |d|
    ensures i < |d| ==> d[i].mac == mac
    ensures forall k :: 0 <= k < i ==> d[k].mac != mac
  {
    FindFrom(d, mac, 0)
  }

  function FindFrom(d: seq<DiscoveredSwitch>, mac: string, from: nat): (i: nat)
    requires from <= |d|
    ensures from <= i <= |d|
    ensures i < |d| ==> d[i].mac == mac
    ensures forall k :: from <= k < i ==> d[k].mac != mac
    decreases |d| - from
  {
    if from == |d| || d[from].mac == mac then from else FindFrom(d, mac, from + 1)
  }

  /** `discovered[result.mac] = result` */
  function Store(d: seq<DiscoveredSwitch>, s: DiscoveredSwitch): seq<DiscoveredSwitch> {
    var i := Find(d, s.mac);
    if i < |d| then d[i := s] else d + [s]
  }

  /** The dictionary after the first n replies, none of which is consumed once it holds 64. */
  function CollectedAfter(replies: seq<Option<DiscoveredSwitch>>, n: nat): (d: seq<DiscoveredSwitch>)
    requires n <= |replies|
  {
    if n == 0 then []
    else
      var d := CollectedAfter(replies, n - 1);
      if |d| >= MAX_RESPONSES || replies[n - 1].None? then d else Store(d, replies[n - 1].value)
  }

  function Collected(replies: seq<Option<DiscoveredSwitch>>): seq<DiscoveredSwitch> {
    CollectedAfter(replies, |replies|)
  }

  /** One datagram taken off the queue. */
  datatype Datagram = Datagram(data: seq<byte>, sourceHost: Option<Ipv4>, sourcePort: int)

  /** What the scan makes of a datagram: a switch, or nothing. */
  function Reply(g: Datagram, clientMac: Mac, sequence: word, charset: seq<byte> -> string): Option<DiscoveredSwitch> {
    if g.sourcePort != SWITCH_PORT then None
    else ParseResponse(g.data, g.sourceHost, clientMac, sequence, charset)
  }

  function Replies(gs: seq<Datagram>, clientMac: Mac, sequence: word, charset: seq<byte> -> string)
    : (r: seq<Option<DiscoveredSwitch>>)
    ensures |r| == |gs|
    ensures forall i :: 0 <= i < |gs| ==> r[i] == Reply(gs[i], clientMac, sequence, charset)
  {
    seq(|gs|, i requires 0 <= i < |gs| => Reply(gs[i], clientMac, sequence, charset))
  }

  /**
   * The collection loop over the datagrams that arrive before the deadline; `consumed` counts those
   * taken off the queue.
   */
  method Discover(gs: seq<Datagram>, clientMac: Mac, sequence: word, charset: seq<byte> -> string)
    returns (r: seq<DiscoveredSwitch>, consumed: nat)
    ensures r == Sorted(Collected(Replies(gs, clientMac, sequence, charset)))
    ensures consumed <= |gs|
    ensures Collected(Replies(gs, clientMac, sequence, charset)) ==
            CollectedAfter(Replies(gs, clientMac, sequence, charset), consumed)
    ensures consumed < |gs| ==> |r| >= MAX_RESPONSES
    ensures forall m :: 0 <= m < consumed ==>
              |CollectedAfter(Replies(gs, clientMac, sequence, charset), m)| < MAX_RESPONSES
  {
    hide ParseResponse, Sorted;
    ghost var replies := Replies(gs, clientMac, sequence, charset);
    var discovered: seq<DiscoveredSwitch> := [];
    consumed := 0;
    while |discovered| < MAX_RESPONSES && consumed < |gs|
      invariant consumed <= |gs|
      invariant discovered == CollectedAfter(replies, consumed)
      invariant forall m :: 0 <= m < consumed ==> |CollectedAfter(replies, m)| < MAX_RESPONSES
      decreases |gs| - consumed
    {
      var g := gs[consumed];
      consumed := consumed + 1;
      if g.sourcePort != SWITCH_PORT {
        continue;
      }
      var result := ParseDiscoveryResponse(g.data, g.sourceHost, clientMac, sequence, charset);
      if result.Some? {
        discovered := Store(discovered, result.value);
      }
    }
    FullStaysFull(replies, consumed, |gs|);
    r := Sorted(discovered);
  }

  lemma {:induction false} FullStaysFull(replies: seq<Option<DiscoveredSwitch>>, m: nat, n: nat)
    requires m <= n <= |replies|
    requires m == n || |CollectedAfter(replies, m)| >= MAX_RESPONSES
    ensures CollectedAfter(replies, n) == CollectedAfter(replies, m)
    decreases n
  {
    if m < n {
      FullStaysFull(replies, m, n - 1);
    }
  }

  // ---------- what a scan returns ----------

  lemma StoreKeepsDistinct(d: seq<DiscoveredSwitch>, s: DiscoveredSwitch)
    requires DistinctMacs(d)
    ensures DistinctMacs(Store(d, s))
    ensures forall x :: x in Store(d, s) <==> x == s || (x in d && x.mac != s.mac)
  {
    var i := Find(d, s.mac);
    var r := Store(d, s);
    forall k, j | 0 <= k < j < |r|
      ensures MacsDiffer(r, k, j)
    {
      if j < |d| {
        assert MacsDiffer(d, k, j);
      }
    }
    if i < |d| {
      forall k | 0 <= k < |d| && k != i
        ensures d[k].mac != s.mac
      {
        assert if k < i then MacsDiffer(d, k, i) else MacsDiffer(d, i, k);
      }
      assert r[i] == s;
      forall x
        ensures x in r <==> x == s || (x in d && x.mac != s.mac)
      {
        if x in d && x.mac != s.mac {
          var k :| 0 <= k < |d| && d[k] == x;
          assert r[k] == x;
        }
        if x in r && x != s {
          var k :| 0 <= k < |r| && r[k] == x;
          assert d[k] == x;
        }
      }
    } else {
      forall x | x in d
        ensures x.mac != s.mac
      {
        var k :| 0 <= k < |d| && d[k] == x;
      }
    }
  }

  /** Reply i was accepted as s, and no later reply among the first n has its MAC. */
  ghost predicate LastFor(replies: seq<Option<DiscoveredSwitch>>, n: nat, i: nat, s: DiscoveredSwitch)
    requires n <= |replies|
  {
    i < n && replies[i] == Some(s) && forall k :: i < k < n && replies[k].Some? ==> replies[k].value.mac != s.mac
  }

  ghost predicate IsLast(replies: seq<Option<DiscoveredSwitch>>, n: nat, s: DiscoveredSwitch)
    requires n <= |replies|
  {
    exists i: nat :: LastFor(replies, n, i, s)
  }

  /**
   * As long as the dictionary was not full before the n-th reply, it holds exactly the last accepted
   * reply of each MAC.
   */
  lemma {:induction false} HoldsLastReplies(replies: seq<Option<DiscoveredSwitch>>, n: nat)
    requires n <= |replies|
    requires forall m :: 0 <= m < n ==> |CollectedAfter(replies, m)| < MAX_RESPONSES
    ensures DistinctMacs(CollectedAfter(replies, n)) && |CollectedAfter(replies, n)| <= MAX_RESPONSES
    ensures forall s :: s in CollectedAfter(replies, n) <==> IsLast(replies, n, s)
  {
    if n > 0 {
      HoldsLastReplies(replies, n - 1);
      var d := CollectedAfter(replies, n - 1);
      assert |d| < MAX_RESPONSES;
      var last := replies[n - 1];
      if last.Some? {
        StoreKeepsDistinct(d, last.value);
      }
      forall s
        ensures s in CollectedAfter(replies, n) <==> IsLast(replies, n, s)
      {
        ExtendLast(replies, n, s);
      }
    }
  }

  lemma ExtendLast(replies: seq<Option<DiscoveredSwitch>>, n: nat, s: DiscoveredSwitch)
    requires 0 < n <= |replies|
    ensures IsLast(replies, n, s) <==>
            || replies[n - 1] == Some(s)
            || (IsLast(replies, n - 1, s) && (replies[n - 1].Some? ==> replies[n - 1].value.mac != s.mac))
  {
    if replies[n - 1] == Some(s) {
      assert LastFor(replies, n, n - 1, s);
    }
    if IsLast(replies, n - 1, s) && (replies[n - 1].Some? ==> replies[n - 1].value.mac != s.mac) {
      var i: nat :| LastFor(replies, n - 1, i, s);
      assert LastFor(replies, n, i, s);
    }
    if IsLast(replies, n, s) {
      var i: nat :| LastFor(replies, n, i, s);
      assert i < n - 1 ==> LastFor(replies, n - 1, i, s);
    }
  }

  /** The number of replies that are consumed: all of them, or those up to the one that fills the dictionary. */
  lemma {:induction false} ConsumedReplies(replies: seq<Option<DiscoveredSwitch>>) returns (n: nat)
    ensures n <= |replies|
    ensures Collected(replies) == CollectedAfter(replies, n)
    ensures n < |replies| ==> |CollectedAfter(replies, n)| >= MAX_RESPONSES
    ensures forall m :: 0 <= m < n ==> |CollectedAfter(replies, m)| < MAX_RESPONSES
  {
    n := 0;
    while n < |replies| && |CollectedAfter(replies, n)| < MAX_RESPONSES
      invariant n <= |replies|
      invariant forall m :: 0 <= m < n ==> |CollectedAfter(replies, m)| < MAX_RESPONSES
    {
      n := n + 1;
    }
    FullStaysFull(replies, n, |replies|);
  }

  /**
   * Whatever arrives: the result is strictly ascending, its MACs are distinct, it has at most 64 entries,
   * and it holds exactly the last accepted reply of each MAC among the n replies consumed.
   */
  lemma ScanResult(replies: seq<Option<DiscoveredSwitch>>) returns (n: nat)
    ensures n <= |replies| && (n < |replies| ==> |Sorted(Collected(replies))| == MAX_RESPONSES)
    ensures Ascending(Sorted(Collected(replies))) && DistinctMacs(Sorted(Collected(replies)))
    ensures |Sorted(Collected(replies))| <= MAX_RESPONSES
    ensures forall s :: s in Sorted(Collected(replies)) <==> IsLast(replies, n, s)
  {
    n := ConsumedReplies(replies);
    HoldsLastReplies(replies, n);
    SortedKeepsDistinct(Collected(replies));
  }

  /** In a result, models ascend, names ascend within a model, and MACs ascend within a name. */
  lemma SortedByModelNameMac(s: seq<DiscoveredSwitch>, i: nat, j: nat)
    requires Ascending(s) && i < j < |s|
    ensures s[i].model == s[j].model || StringLess(s[i].model, s[j].model)
    ensures s[i].model == s[j].model ==> s[i].name == s[j].name || StringLess(s[i].name, s[j].name)
    ensures s[i].model == s[j].model && s[i].name == s[j].name ==> StringLess(s[i].mac, s[j].mac)
  {
    assert Before(s, i, j);
    StringLessIsTotal(s[i].model, s[j].model);
    StringLessIsTotal(s[i].name, s[j].name);
  }

  /** Datagram i came from the switches' port and was accepted as s. */
  ghost predicate AcceptedAs(
    gs: seq<Datagram>, clientMac: Mac, sequence: word, charset: seq<byte> -> string, i: nat, s: DiscoveredSwitch)
    requires i < |gs|
  {
    gs[i].sourcePort == 29808 && ParseResponse(gs[i].data, gs[i].sourceHost, clientMac, sequence, charset) == Some(s)
  }

  /** And none of the first n after it was accepted with its MAC. */
  ghost predicate LastAcceptedAs(
    gs: seq<Datagram>, n: nat, clientMac: Mac, sequence: word, charset: seq<byte> -> string, i: nat,
    s: DiscoveredSwitch)
    requires n <= |gs|
  {
    && i < n && AcceptedAs(gs, clientMac, sequence, charset, i, s)
    && forall k, t :: i < k < n && AcceptedAs(gs, clientMac, sequence, charset, k, t) ==> t.mac != s.mac
  }

  /**
   * The scan over datagrams: of the n consumed, which are all of them unless 64 switches were found, the
   * result holds for each MAC the last one that came from port 29808 and was accepted, sorted.
   */
  lemma ScanOfDatagrams(gs: seq<Datagram>, clientMac: Mac, sequence: word, charset: seq<byte> -> string)
    returns (n: nat)
    ensures var r := Sorted(Collected(Replies(gs, clientMac, sequence, charset)));
            && n <= |gs| && (n < |gs| ==> |r| == 64) && |r| <= 64
            && Ascending(r) && DistinctMacs(r)
            && forall s :: s in r <==> exists i: nat :: LastAcceptedAs(gs, n, clientMac, sequence, charset, i, s)
  {
    hide ParseResponse, Sorted, Collected, DistinctMacs, Ascending, IsLast;
    var replies := Replies(gs, clientMac, sequence, charset);
    n := ScanResult(replies);
    forall s
      ensures IsLast(replies, n, s) <==> exists i: nat :: LastAcceptedAs(gs, n, clientMac, sequence, charset, i, s)
    {
      LastReplyIsLastAccepted(gs, n, clientMac, sequence, charset, s);
    }
  }

  lemma LastReplyIsLastAccepted(
    gs: seq<Datagram>, n: nat, clientMac: Mac, sequence: word, charset: seq<byte> -> string, s: DiscoveredSwitch)
    requires n <= |gs|
    ensures IsLast(Replies(gs, clientMac, sequence, charset), n, s) <==>
            exists i: nat :: LastAcceptedAs(gs, n, clientMac, sequence, charset, i, s)
  {
    hide ParseResponse;
    var replies := Replies(gs, clientMac, sequence, charset);
    forall i: nat, t | i < n
      ensures AcceptedAs(gs, clientMac, sequence, charset, i, t) <==> replies[i] == Some(t)
    {
    }
    forall i: nat
      ensures LastFor(replies, n, i, s) <==> LastAcceptedAs(gs, n, clientMac, sequence, charset, i, s)
    {
      if LastAcceptedAs(gs, n, clientMac, sequence, charset, i, s) {
        forall k | i < k < n && replies[k].Some?
          ensures replies[k].value.mac != s.mac
        {
          assert AcceptedAs(gs, clientMac, sequence, charset, k, replies[k].value);
        }
      }
    }
  }

  // ---------- arrival order ----------

  /** The accepted replies have pairwise different MACs: each switch answers once. */
  ghost predicate AnswerOnce(replies: seq<Option<DiscoveredSwitch>>) {
    forall i, j :: 0 <= i < j < |replies| ==> Differ(replies, i, j)
  }

  ghost predicate Differ(replies: seq<Option<DiscoveredSwitch>>, i: nat, j: nat)
    requires i < |replies| && j < |replies|
  {
    replies[i].Some? && replies[j].Some? ==> replies[i].value.mac != replies[j].value.mac
  }

  /** The switches that were accepted at all. */
  ghost function Switches(replies: seq<Option<DiscoveredSwitch>>): (r: set<DiscoveredSwitch>)
    ensures forall s :: s in r <==> Some(s) in replies
  {
    set i | 0 <= i < |replies| && replies[i].Some? :: replies[i].value
  }

  lemma {:induction false} DistinctCount(d: seq<DiscoveredSwitch>, all: set<DiscoveredSwitch>)
    requires DistinctMacs(d) && forall s :: s in d ==> s in all
    ensures |d| <= |all|
  {
    if d != [] {
      var n := |d| - 1;
      var last := d[n];
      assert last in d;
      forall i, j | 0 <= i < j < n
        ensures MacsDiffer(d[..n], i, j)
      {
        assert MacsDiffer(d, i, j);
      }
      forall s | s in d[..n]
        ensures s in all - {last}
      {
        var i :| 0 <= i < n && d[i] == s;
        assert MacsDiffer(d, i, n);
      }
      DistinctCount(d[..n], all - {last});
    }
  }

  /** With at most 64 switches that answer once, every accepted reply is kept. */
  lemma {:induction false} AllAreKept(replies: seq<Option<DiscoveredSwitch>>, n: nat)
    requires n <= |replies| && AnswerOnce(replies) && |Switches(replies)| <= MAX_RESPONSES
    ensures DistinctMacs(CollectedAfter(replies, n))
    ensures forall s :: s in CollectedAfter(replies, n) <==> exists i :: 0 <= i < n && replies[i] == Some(s)
  {
    if n > 0 {
      AllAreKept(replies, n - 1);
      var d := CollectedAfter(replies, n - 1);
      if replies[n - 1].Some? {
        var s := replies[n - 1].value;
        assert replies[n - 1] in replies;
        forall k | 0 <= k < |d|
          ensures d[k].mac != s.mac
        {
          var x := d[k];
          assert x in d;
          var i :| 0 <= i < n - 1 && replies[i] == Some(x);
          assert Differ(replies, i, n - 1);
        }
        StoreKeepsDistinct(d, s);
        assert Store(d, s) == d + [s];
        DistinctCount(Store(d, s), Switches(replies));
      }
    }
  }

  lemma TwoPlacesCountTwice<T>(s: seq<T>, i: nat, j: nat)
    requires i < j < |s| && s[i] == s[j]
    ensures multiset(s)[s[i]] >= 2
  {
    assert s == s[..j] + ([s[j]] + s[j + 1..]);
    assert multiset(s) == multiset(s[..j]) + (multiset{s[j]} + multiset(s[j + 1..]));
    assert s[i] in s[..j];
    assert s[i] in multiset(s[..j]);
  }

  lemma {:induction false} CountedTwiceHasTwoPlaces<T>(s: seq<T>, x: T) returns (i: nat, j: nat)
    requires multiset(s)[x] >= 2
    ensures i < j < |s| && s[i] == x && s[j] == x
  {
    assert s == [s[0]] + s[1..];
    if s[0] == x {
      assert x in multiset(s[1..]);
      var k :| 0 <= k < |s| - 1 && s[1..][k] == x;
      i, j := 0, k + 1;
    } else {
      i, j := CountedTwiceHasTwoPlaces(s[1..], x);
      i, j := i + 1, j + 1;
    }
  }

  /** Two places of one order have their counterparts in any other order. */
  lemma CounterpartPlaces<T>(a: seq<T>, b: seq<T>, i: nat, j: nat) returns (p: nat, q: nat)
    requires multiset(a) == multiset(b) && i < j < |b|
    ensures p < q < |a|
    ensures (a[p] == b[i] && a[q] == b[j]) || (a[p] == b[j] && a[q] == b[i])
  {
    if b[i] == b[j] {
      TwoPlacesCountTwice(b, i, j);
      p, q := CountedTwiceHasTwoPlaces(a, b[i]);
    } else {
      assert b[i] in multiset(b) && b[j] in multiset(b);
      var k :| 0 <= k < |a| && a[k] == b[i];
      var l :| 0 <= l < |a| && a[l] == b[j];
      p, q := if k < l then k else l, if k < l then l else k;
    }
  }

  lemma AnswerOnceInAnyOrder(a: seq<Option<DiscoveredSwitch>>, b: seq<Option<DiscoveredSwitch>>)
    requires multiset(a) == multiset(b) && AnswerOnce(a)
    ensures AnswerOnce(b)
  {
    forall i, j | 0 <= i < j < |b|
      ensures Differ(b, i, j)
    {
      var p, q := CounterpartPlaces(a, b, i, j);
      assert Differ(a, p, q);
    }
  }

  /** The scan's result does not depend on the order in which the replies arrive. */
  lemma ArrivalOrderIsIrrelevant(a: seq<Option<DiscoveredSwitch>>, b: seq<Option<DiscoveredSwitch>>)
    requires multiset(a) == multiset(b)
    requires AnswerOnce(a) && |Switches(a)| <= MAX_RESPONSES
    ensures Sorted(Collected(a)) == Sorted(Collected(b))
  {
    AnswerOnceInAnyOrder(a, b);
    assert forall s :: s in a <==> s in multiset(a);
    assert forall s :: s in b <==> s in multiset(b);
    assert Switches(a) == Switches(b);
    AllAreKept(a, |a|);
    AllAreKept(b, |b|);
    SortedIsAscending(Collected(a));
    SortedIsAscending(Collected(b));
    forall s
      ensures s in Sorted(Collected(a)) <==> s in Sorted(Collected(b))
    {
      assert s in Collected(a) <==> Some(s) in a;
      assert s in Collected(b) <==> Some(s) in b;
    }
    AscendingIsUnique(Sorted(Collected(a)), Sorted(Collected(b)));
  }

  ghost function Removed<T>(s: seq<T>, k: nat): (r: seq<T>)
    requires k < |s|
    ensures |r| == |s| - 1
  {
    s[..k] + s[k + 1..]
  }

  lemma RemoveOne<T>(s: seq<T>, k: nat)
    requires k < |s|
    ensures multiset(s) == multiset(Removed(s, k)) + multiset{s[k]}
    ensures multiset(Removed(s, k)) == multiset(s) - multiset{s[k]}
  {
    assert s == s[..k] + ([s[k]] + s[k + 1..]);
  }

  lemma RepliesOfRemoved(
    gs: seq<Datagram>, k: nat, clientMac: Mac, sequence: word, charset: seq<byte> -> string)
    requires k < |gs|
    ensures Replies(Removed(gs, k), clientMac, sequence, charset) ==
            Removed(Replies(gs, clientMac, sequence, charset), k)
  {
    hide Reply, Replies;
  }

  lemma {:induction false} RepliesOfPermutation(
    a: seq<Datagram>, b: seq<Datagram>, clientMac: Mac, sequence: word, charset: seq<byte> -> string)
    requires multiset(a) == multiset(b)
    ensures multiset(Replies(a, clientMac, sequence, charset)) == multiset(Replies(b, clientMac, sequence, charset))
    decreases |a|
  {
    hide Reply, Replies, Removed;
    assert |a| == |multiset(a)| == |multiset(b)| == |b|;
    var ra, rb := Replies(a, clientMac, sequence, charset), Replies(b, clientMac, sequence, charset);
    if a == [] {
      assert ra == rb;
    } else {
      var x := a[0];
      assert x in multiset(b);
      var k :| 0 <= k < |b| && b[k] == x;
      RemoveOne(a, 0);
      RemoveOne(b, k);
      RepliesOfPermutation(Removed(a, 0), Removed(b, k), clientMac, sequence, charset);
      RepliesOfRemoved(a, 0, clientMac, sequence, charset);
      RepliesOfRemoved(b, k, clientMac, sequence, charset);
      RemoveOne(ra, 0);
      RemoveOne(rb, k);
    }
  }

  /** The same for the datagrams of a scan: only which ones arrive matters, not when. */
  lemma ScanIgnoresOrder(
    a: seq<Datagram>, b: seq<Datagram>, clientMac: Mac, sequence: word, charset: seq<byte> -> string)
    requires multiset(a) == multiset(b)
    requires AnswerOnce(Replies(a, clientMac, sequence, charset))
    requires |Switches(Replies(a, clientMac, sequence, charset))| <= MAX_RESPONSES
    ensures Sorted(Collected(Replies(a, clientMac, sequence, charset))) ==
            Sorted(Collected(Replies(b, clientMac, sequence, charset)))
  {
    RepliesOfPermutation(a, b, clientMac, sequence, charset);
    ArrivalOrderIsIrrelevant(Replies(a, clientMac, sequence, charset), Replies(b, clientMac, sequence, charset));
  }
}
