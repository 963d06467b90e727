/** Port selections: validation, LAG closure, and the firmware's port bit masks. */
module Ports {
  import opened Results
  import opened Bits

  /** Named, so that sortedness is used only where a proof mentions it. */
  ghost predicate Below(s: seq<int>, i: nat, j: nat)
    requires i < |s| && j < |s|
  {
    s[i] < s[j]
  }

  ghost predicate StrictlySorted(s: seq<int>) {
    forall i, j :: 0 <= i < j < |s| ==> Below(s, i, j)
  }

  /** Every element lies in 1..n, the ports of a switch with n ports. */
  predicate InRange(s: seq<int>, n: int)
    ensures InRange(s, n) ==> Positive(s) && forall i :: 0 <= i < |s| ==> 1 <= s[i] <= n
  {
    assert forall i | 0 <= i < |s| :: s[i] in s;
    forall p :: p in s ==> 1 <= p <= n
  }

  predicate Positive(s: seq<int>) {
    forall i :: 0 <= i < |s| ==> s[i] >= 1
  }

  lemma Ordered(s: seq<int>)
    requires StrictlySorted(s)
    ensures forall i, j :: 0 <= i < j < |s| ==> s[i] < s[j]
  {
    forall i, j | 0 <= i < j < |s|
      ensures s[i] < s[j]
    {
      assert Below(s, i, j);
    }
  }

  lemma AllButLast(s: seq<int>)
    requires StrictlySorted(s) && s != []
    ensures forall p :: p in s ==> p <= s[|s| - 1]
    ensures forall p :: p in s[..|s| - 1] <==> p in s && p != s[|s| - 1]
    ensures StrictlySorted(s[..|s| - 1])
  {
    var n := |s| - 1;
    assert s == s[..n] + [s[n]];
    Ordered(s);
  }

  /** A strictly sorted sequence is determined by its elements. */
  lemma {:induction false} SortedIsUnique(a: seq<int>, b: seq<int>)
    requires StrictlySorted(a) && StrictlySorted(b)
    requires forall p :: p in a <==> p in b
    ensures a == b
  {
    if a != [] {
      var first := a[0];
      assert first in a && first in b;
    }
    if b != [] {
      var first := b[0];
      assert first in b && first in a;
    }
    if a != [] && b != [] {
      var x, y := a[|a| - 1], b[|b| - 1];
      assert x in a && y in b;
      AllButLast(a);
      AllButLast(b);
      assert x == y;
      var a', b' := a[..|a| - 1], b[..|b| - 1];
      forall p
        ensures p in a' <==> p in b'
      {
        assert p in a' <==> p in a && p != x;
        assert p in b' <==> p in b && p != x;
      }
      SortedIsUnique(a', b');
      assert a == a' + [x] && b == b' + [x];
    }
  }

  function Insert(x: int, s: seq<int>): (r: seq<int>)
    requires StrictlySorted(s)
    ensures StrictlySorted(r)
    ensures forall y :: y in r <==> y == x || y in s
  {
    Ordered(s);
    if s == [] || x < s[0] then [x] + s
    else if x == s[0] then s
    else
      var rest := Insert(x, s[1..]);
      Ordered(rest);
      assert s == [s[0]] + s[1..];
      assert forall i | 0 <= i < |rest| :: rest[i] in rest;
      [s[0]] + rest
  }

  /** The distinct values of the first n ports, in ascending order. */
  function UniqueFirst(ports: seq<int>, n: nat): (r: seq<int>)
    requires n <= |ports|
    ensures StrictlySorted(r)
    ensures forall p :: p in r ==> p in ports
    ensures forall i :: 0 <= i < n ==> ports[i] in r
  {
    if n == 0 then []
    else
      Insert(ports[n - 1], UniqueFirst(ports, n - 1))
  }

  /** `sorted({int(port) for port in ports})` */
  function UniquePorts(ports: seq<int>): (r: seq<int>)
    ensures StrictlySorted(r)
    ensures forall p :: p in r <==> p in ports
  {
    UniqueFirst(ports, |ports|)
  }

  /** `[p for p in range(1, n + 1) if keep(p)]` */
  function PortsWhere(n: int, keep: int -> bool): (r: seq<int>)
    ensures StrictlySorted(r)
    ensures forall p :: p in r <==> 1 <= p <= n && keep(p)
    decreases n
  {
    if n <= 0 then []
    else
      var below := PortsWhere(n - 1, keep);
      assert forall i | 0 <= i < |below| :: below[i] in below;
      Ordered(below);
      if keep(n) then below + [n] else below
  }

  function ValidatePorts(ports: seq<int>, portCount: int, allowEmpty: bool): (r: Result<seq<int>>)
    ensures r.Ok? <==> (allowEmpty || ports != []) && InRange(ports, portCount)
    ensures r.Ok? ==> StrictlySorted(r.value) && forall p :: p in r.value <==> p in ports
  {
    var result := UniquePorts(ports);
    assert ports != [] ==> ports[0] in result;
    assert result != [] ==> result[0] in ports;
    if !allowEmpty && result == [] then Refuse(NoPortSelected)
    else
      var invalid := Invalid(result, portCount);
      if invalid != [] then
        assert invalid[0] in result;
        Refuse(PortsOutOfRange(invalid))
      else Ok(result)
  }

  /** A refusal names its cause: an empty selection that is not allowed, or exactly the ports out of range. */
  lemma RefusedPorts(ports: seq<int>, portCount: int, allowEmpty: bool)
    requires ValidatePorts(ports, portCount, allowEmpty).Err?
    ensures if !allowEmpty && ports == [] then ValidatePorts(ports, portCount, allowEmpty) == Refuse(NoPortSelected)
            else exists invalid ::
                   && ValidatePorts(ports, portCount, allowEmpty) == Refuse(PortsOutOfRange(invalid))
                   && invalid != []
                   && forall p :: p in invalid <==> p in ports && !(1 <= p <= portCount)
  {
    var result := UniquePorts(ports);
    var invalid := Invalid(result, portCount);
    assert ports != [] ==> var first := ports[0]; first in result;
    assert result != [] ==> var first := result[0]; first in result;
  }

  /** `[port for port in result if port < 1 or port > port_count]` */
  function Invalid(ports: seq<int>, portCount: int): (r: seq<int>)
    ensures forall p :: p in r <==> p in ports && (p < 1 || p > portCount)
    ensures r == [] <==> InRange(ports, portCount)
  {
    var r := InvalidFrom(ports, portCount, 0);
    assert forall p :: p in r <==> p in ports && (p < 1 || p > portCount);
    assert r != [] ==> r[0] in r;
    r
  }

  function InvalidFrom(ports: seq<int>, portCount: int, from: nat): (r: seq<int>)
    requires from <= |ports|
    ensures forall p :: p in r ==> p in ports && (p < 1 || p > portCount)
    ensures forall i :: from <= i < |ports| && (ports[i] < 1 || ports[i] > portCount) ==> ports[i] in r
    decreases |ports| - from
  {
    if from == |ports| then []
    else
      var rest := InvalidFrom(ports, portCount, from + 1);
      if ports[from] < 1 || ports[from] > portCount then [ports[from]] + rest else rest
  }

  /** First index of x among the first n elements of s, or n when x is not among them. */
  function IndexOf(s: seq<int>, n: nat, x: int): (i: nat)
    requires n <= |s|
    ensures i <= n
    ensures i < n ==> s[i] == x
    ensures forall j :: 0 <= j < i ==> s[j] != x
  {
    IndexFrom(s, n, x, 0)
  }

  function IndexFrom(s: seq<int>, n: nat, x: int, from: nat): (i: nat)
    requires from <= n <= |s|
    ensures from <= i <= n
    ensures i < n ==> s[i] == x
    ensures forall j :: from <= j < i ==> s[j] != x
    decreases n - from
  {
    if from == n || s[from] == x then from else IndexFrom(s, n, x, from + 1)
  }

  lemma IndexOfPrefix(a: seq<int>, b: seq<int>, n: nat, x: int)
    requires n <= |a| && n <= |b| && forall j :: 0 <= j < n ==> a[j] == b[j]
    ensures IndexOf(a, n, x) == IndexOf(b, n, x)
  {
  }

  // ---------- static LAG closure ----------

  /** The optional LAG column of a page: absent means that no port is in a LAG. */
  function ReadTrunkGroups(column: Option<seq<int>>, portCount: nat): (r: Result<seq<int>>)
    ensures r.Ok? <==> column.None? || |column.value| >= portCount
    ensures r.Err? ==> r == Err(DataFormatError)
    ensures r.Ok? ==> |r.value| == portCount
    ensures r.Ok? ==> forall i :: 0 <= i < portCount ==> r.value[i] == if column.Some? then column.value[i] else 0
  {
    match column
    case None => Ok(seq(portCount, _ => 0))
    case Some(groups) => if |groups| < portCount then Err(DataFormatError) else Ok(groups[..portCount])
  }

  /** Ports p and q are members of the same static LAG. */
  predicate SameLag(p: int, q: int, trunk: seq<int>) {
    1 <= p <= |trunk| && 1 <= q <= |trunk| && trunk[p - 1] > 0 && trunk[p - 1] == trunk[q - 1]
  }

  /** No member of a LAG is in s without all the others. */
  ghost predicate LagClosed(s: seq<int>, trunk: seq<int>) {
    forall p, q :: p in s && SameLag(p, q, trunk) ==> q in s
  }

  function SelectedGroups(selected: seq<int>, trunk: seq<int>): set<int>
    requires InRange(selected, |trunk|)
  {
    set p | p in selected && trunk[p - 1] > 0 :: trunk[p - 1]
  }

  function ExpandTrunkPorts(ports: seq<int>, trunk: seq<int>): (r: Result<seq<int>>) {
    var selected :- ValidatePorts(ports, |trunk|, true);
    var groups := SelectedGroups(selected, trunk);
    Ok(WithGroups(selected, groups, trunk))
  }

  function WithGroups(selected: seq<int>, groups: set<int>, trunk: seq<int>): (r: seq<int>)
    requires InRange(selected, |trunk|)
    ensures StrictlySorted(r)
    ensures forall p :: p in r <==> p in selected || (1 <= p <= |trunk| && trunk[p - 1] in groups)
  {
    PortsWhere(|trunk|, p => p in selected || (1 <= p <= |trunk| && trunk[p - 1] in groups))
  }

  /** `[index + 1 for index, value in enumerate(trunk_groups) if value == group]` */
  function GroupMembers(group: int, trunk: seq<int>): (r: seq<int>)
    ensures StrictlySorted(r)
    ensures forall p :: p in r <==> 1 <= p <= |trunk| && trunk[p - 1] == group
  {
    PortsWhere(|trunk|, p => 1 <= p <= |trunk| && trunk[p - 1] == group)
  }

  /** `sorted(selected)` for a set of ports of an n-port switch */
  function SortedSet(selected: set<int>, n: int): (r: seq<int>)
    requires forall p :: p in selected ==> 1 <= p <= n
    ensures StrictlySorted(r)
    ensures forall p :: p in r <==> p in selected
  {
    PortsWhere(n, p => p in selected)
  }

  method AddGroups(validated: seq<int>, groups: set<int>, trunk: seq<int>) returns (r: seq<int>)
    requires InRange(validated, |trunk|)
    ensures r == WithGroups(validated, groups, trunk)
  {
    var selected := set p | p in validated;
    for index := 0 to |trunk|
      invariant forall p :: p in selected <==> p in validated || (1 <= p <= index && trunk[p - 1] in groups)
    {
      if trunk[index] in groups {
        selected := selected + {index + 1};
      }
    }
    r := SortedSet(selected, |trunk|);
    SortedIsUnique(r, WithGroups(validated, groups, trunk));
  }

  /** The set-updating form of the source computes the same list. */
  method ExpandTrunkPortsInPlace(ports: seq<int>, trunk: seq<int>) returns (r: Result<seq<int>>)
    ensures r == ExpandTrunkPorts(ports, trunk)
  {
    var validated := ValidatePorts(ports, |trunk|, true);
    if validated.Err? {
      return Err(validated.error);
    }
    var selectedGroups := SelectedGroups(validated.value, trunk);
    var expanded := AddGroups(validated.value, selectedGroups, trunk);
    r := Ok(expanded);
  }

  lemma InSelectedGroup(selected: seq<int>, trunk: seq<int>, p: int)
    requires InRange(selected, |trunk|) && 1 <= p <= |trunk|
    ensures trunk[p - 1] in SelectedGroups(selected, trunk) <==>
            exists q :: q in selected && SameLag(q, p, trunk)
  {
    if trunk[p - 1] in SelectedGroups(selected, trunk) {
      var q :| q in selected && trunk[q - 1] > 0 && trunk[q - 1] == trunk[p - 1];
      assert SameLag(q, p, trunk);
    }
  }

  /** The expansion holds exactly the selected ports and the LAG partners of selected ports. */
  lemma ExpandMembers(ports: seq<int>, trunk: seq<int>, p: int)
    requires InRange(ports, |trunk|)
    ensures ExpandTrunkPorts(ports, trunk).Ok?
    ensures p in ExpandTrunkPorts(ports, trunk).value <==>
            p in ports || exists q :: q in ports && SameLag(q, p, trunk)
  {
    var selected := ValidatePorts(ports, |trunk|, true).value;
    assert ExpandTrunkPorts(ports, trunk) == Ok(WithGroups(selected, SelectedGroups(selected, trunk), trunk));
    if 1 <= p <= |trunk| {
      InSelectedGroup(selected, trunk, p);
    }
  }

  /** The result is a sorted, duplicate-free, LAG-closed superset of the selection, within the ports. */
  lemma ExpandIsClosedSuperset(ports: seq<int>, trunk: seq<int>)
    ensures ExpandTrunkPorts(ports, trunk).Ok? <==> InRange(ports, |trunk|)
    ensures InRange(ports, |trunk|) ==>
              var r := ExpandTrunkPorts(ports, trunk).value;
              && StrictlySorted(r)
              && InRange(r, |trunk|)
              && LagClosed(r, trunk)
              && (forall p :: p in ports ==> p in r)
              && (r == [] <==> ports == [])
  {
    if InRange(ports, |trunk|) {
      var r := ExpandTrunkPorts(ports, trunk).value;
      forall p
        ensures p in r <==> p in ports || exists q :: q in ports && SameLag(q, p, trunk)
      {
        ExpandMembers(ports, trunk, p);
      }
      forall p, q | p in r && SameLag(p, q, trunk)
        ensures q in r
      {
        if p !in ports {
          var o :| o in ports && SameLag(o, p, trunk);
          assert SameLag(o, q, trunk);
        }
      }
      assert ports != [] ==> ports[0] in r;
      assert r != [] ==> r[0] in r;
    }
  }

  /** An expansion is refused for exactly the ports out of range. */
  lemma RefusedExpansion(ports: seq<int>, trunk: seq<int>)
    requires !InRange(ports, |trunk|)
    ensures exists invalid ::
              && ExpandTrunkPorts(ports, trunk) == Refuse(PortsOutOfRange(invalid)) && invalid != []
              && forall p :: p in invalid <==> p in ports && !(1 <= p <= |trunk|)
  {
    RefusedPorts(ports, |trunk|, true);
    var invalid :| && ValidatePorts(ports, |trunk|, true) == Refuse(PortsOutOfRange(invalid)) && invalid != []
                   && forall p :: p in invalid <==> p in ports && !(1 <= p <= |trunk|);
    assert ExpandTrunkPorts(ports, trunk) == Refuse(PortsOutOfRange(invalid));
  }

  /** Every LAG-closed superset of the selection contains the expansion. */
  lemma ExpandIsLeast(ports: seq<int>, trunk: seq<int>, closed: seq<int>)
    requires InRange(ports, |trunk|)
    requires LagClosed(closed, trunk) && forall p :: p in ports ==> p in closed
    ensures forall p :: p in ExpandTrunkPorts(ports, trunk).value ==> p in closed
  {
    forall p | p in ExpandTrunkPorts(ports, trunk).value
      ensures p in closed
    {
      ExpandMembers(ports, trunk, p);
    }
  }

  lemma ExpandIsMonotone(a: seq<int>, b: seq<int>, trunk: seq<int>)
    requires InRange(b, |trunk|) && forall p :: p in a ==> p in b
    ensures InRange(a, |trunk|)
    ensures forall p :: p in ExpandTrunkPorts(a, trunk).value ==> p in ExpandTrunkPorts(b, trunk).value
  {
    ExpandIsClosedSuperset(b, trunk);
    ExpandIsLeast(a, trunk, ExpandTrunkPorts(b, trunk).value);
  }

  lemma ExpandIsIdempotent(ports: seq<int>, trunk: seq<int>)
    requires InRange(ports, |trunk|)
    ensures ExpandTrunkPorts(ExpandTrunkPorts(ports, trunk).value, trunk) == ExpandTrunkPorts(ports, trunk)
  {
    ExpandIsClosedSuperset(ports, trunk);
    var once := ExpandTrunkPorts(ports, trunk).value;
    ExpandIsClosedSuperset(once, trunk);
    ExpandIsLeast(once, trunk, once);
    SortedIsUnique(ExpandTrunkPorts(once, trunk).value, once);
  }

  /** A LAG-closed selection in range expands to itself, sorted. */
  lemma ExpandOfClosed(ports: seq<int>, trunk: seq<int>)
    requires InRange(ports, |trunk|) && LagClosed(ports, trunk)
    ensures ExpandTrunkPorts(ports, trunk) == Ok(UniquePorts(ports))
  {
    ExpandIsClosedSuperset(ports, trunk);
    ExpandIsLeast(ports, trunk, ports);
    SortedIsUnique(ExpandTrunkPorts(ports, trunk).value, UniquePorts(ports));
  }

  function PortsForTrunk(port: int, trunk: seq<int>): (r: Result<seq<int>>) {
    var _ :- ValidatePorts([port], |trunk|, false);
    assert port in [port];
    var group := trunk[port - 1];
    if group == 0 then Ok([port])
    else Ok(GroupMembers(group, trunk))
  }

  /** A negative group number, held by another port too, is the one case where the two expansions differ. */
  predicate SharesNegativeGroup(port: int, trunk: seq<int>)
    requires 1 <= port <= |trunk|
  {
    trunk[port - 1] < 0 && exists i | 0 <= i < |trunk| :: i != port - 1 && trunk[i] == trunk[port - 1]
  }

  lemma PortsForTrunkMembers(port: int, trunk: seq<int>)
    ensures PortsForTrunk(port, trunk).Ok? <==> 1 <= port <= |trunk|
    ensures 1 <= port <= |trunk| ==>
              && StrictlySorted(PortsForTrunk(port, trunk).value)
              && forall p :: p in PortsForTrunk(port, trunk).value <==>
                             p == port || (1 <= p <= |trunk| && trunk[port - 1] != 0 && trunk[p - 1] == trunk[port - 1])
  {
    assert port in [port];
    assert InRange([port], |trunk|) <==> 1 <= port <= |trunk|;
    if 1 <= port <= |trunk| {
      var group := trunk[port - 1];
      assert PortsForTrunk(port, trunk) == Ok(if group == 0 then [port] else GroupMembers(group, trunk));
    }
  }

  lemma TrunkExpansionsAgree(port: int, trunk: seq<int>)
    ensures PortsForTrunk(port, trunk) == ExpandTrunkPorts([port], trunk) <==>
            (1 <= port <= |trunk| ==> !SharesNegativeGroup(port, trunk))
  {
    assert port in [port];
    PortsForTrunkMembers(port, trunk);
    ExpandIsClosedSuperset([port], trunk);
    if 1 <= port <= |trunk| {
      var one, many := PortsForTrunk(port, trunk).value, ExpandTrunkPorts([port], trunk).value;
      forall p
        ensures p in many <==> p == port || SameLag(port, p, trunk)
      {
        ExpandMembers([port], trunk, p);
      }
      if SharesNegativeGroup(port, trunk) {
        var i :| 0 <= i < |trunk| && i != port - 1 && trunk[i] == trunk[port - 1];
        assert trunk[(i + 1) - 1] == trunk[port - 1];
        assert i + 1 in one && i + 1 !in many;
      } else {
        SortedIsUnique(one, many);
      }
    } else {
      assert !InRange([port], |trunk|);
    }
  }

  // ---------- port masks ----------

  function DecodePortMask(mask: int, portCount: int): (r: seq<int>)
    ensures InRange(r, portCount) && StrictlySorted(r)
  {
    PortsWhere(portCount, p => 1 <= p && Bit(mask, p - 1))
  }

  /** `1 << (port - 1)` raises for a port below 1, hence the precondition. */
  function MaskOf(ports: seq<int>): nat
    requires Positive(ports)
  {
    if ports == [] then 0
    else
      var k := |ports| - 1;
      SetBit(MaskOf(ports[..k]), ports[k] - 1)
  }

  method EncodePortMask(ports: seq<int>) returns (result: int)
    requires Positive(ports)
    ensures result == MaskOf(ports)
  {
    result := 0;
    for i := 0 to |ports|
      invariant result == MaskOf(ports[..i])
    {
      assert ports[..i + 1][..i] == ports[..i];
      result := SetBit(result, ports[i] - 1);
    }
    assert ports[..|ports|] == ports;
  }

  lemma {:induction false} BitsOfMask(ports: seq<int>, k: nat)
    requires Positive(ports)
    ensures Bit(MaskOf(ports), k) <==> k + 1 in ports
  {
    if ports == [] {
      BitsOfZero(k);
    } else {
      var n := |ports| - 1;
      assert ports == ports[..n] + [ports[n]];
      BitsOfMask(ports[..n], k);
      BitsOfSetBit(MaskOf(ports[..n]), ports[n] - 1, k);
    }
  }

  lemma {:induction false} MaskBound(ports: seq<int>, n: nat)
    requires InRange(ports, n)
    ensures MaskOf(ports) < Pow2(n)
  {
    // The mask is its own residue: both have the bits ports - 1, all below n.
    var top := MaskTop(ports);
    forall k: nat | k < n + top
      ensures Bit(MaskOf(ports), k) <==> Bit(MaskOf(ports) % Pow2(n), k)
    {
      BitsOfMask(ports, k);
      BitsOfMod(MaskOf(ports), n, k);
    }
    Pow2Monotone(top, n + top);
    Pow2Monotone(n, n + top);
    BitsOfMod(MaskOf(ports), n, 0);
    BitsDetermine(MaskOf(ports), MaskOf(ports) % Pow2(n), n + top);
  }

  /** Some exponent that bounds the mask. */
  ghost function {:induction false} MaskTop(ports: seq<int>): (top: nat)
    requires Positive(ports)
    ensures MaskOf(ports) < Pow2(top)
  {
    if ports == [] then 0
    else
      var k := |ports| - 1;
      var t := MaskTop(ports[..k]);
      Pow2Monotone(t, t + ports[k]);
      Pow2Monotone(ports[k] - 1, t + ports[k]);
      assert Pow2(t + ports[k] + 1) == 2 * Pow2(t + ports[k]);
      t + ports[k] + 1
  }

  /** Decoding what was encoded gives the ports back, sorted and without duplicates, up to the port count. */
  lemma DecodeOfEncode(ports: seq<int>, n: int)
    requires Positive(ports)
    ensures StrictlySorted(DecodePortMask(MaskOf(ports), n))
    ensures forall p :: p in DecodePortMask(MaskOf(ports), n) <==> p in ports && p <= n
    ensures InRange(ports, n) ==> DecodePortMask(MaskOf(ports), n) == UniquePorts(ports)
  {
    var decoded := DecodePortMask(MaskOf(ports), n);
    forall p
      ensures p in decoded <==> p in ports && p <= n
    {
      if p >= 1 {
        BitsOfMask(ports, p - 1);
      }
    }
    if InRange(ports, n) {
      SortedIsUnique(decoded, UniquePorts(ports));
    }
  }

  /** Encoding what was decoded keeps the low n bits, for every integer mask. */
  lemma EncodeOfDecode(m: int, n: nat)
    ensures MaskOf(DecodePortMask(m, n)) == m % Pow2(n)
  {
    var decoded := DecodePortMask(m, n);
    MaskBound(decoded, n);
    BitsOfMod(m, n, 0);
    forall k: nat | k < n
      ensures Bit(MaskOf(decoded), k) <==> Bit(m % Pow2(n), k)
    {
      BitsOfMask(decoded, k);
      BitsOfMod(m, n, k);
    }
    BitsDetermine(MaskOf(decoded), m % Pow2(n), n);
  }
}
