/** The Easy Smart Configuration Protocol's stream cipher, which permutes a 256-byte table as it runs. */
module Cipher {
  import opened Bits

  type byte = b: int | 0 <= b < 256

  type Table = t: seq<byte> | |t| == 256 witness seq(256, _ => 0)

  // ---------- exclusive or ----------

  /** `a ^ b` on non-negative integers */
  function XorNat(a: nat, b: nat): nat
    decreases a + b
  {
    if a == 0 && b == 0 then 0
    else 2 * XorNat(a / 2, b / 2) + if a % 2 == b % 2 then 0 else 1
  }

  /** XorNat is the bitwise exclusive or. */
  lemma {:induction false} BitsOfXor(a: nat, b: nat, k: nat)
    ensures Bit(XorNat(a, b), k) <==> Bit(a, k) != Bit(b, k)
    decreases k
  {
    if a == 0 && b == 0 {
      BitsOfZero(k);
    } else {
      var low := if a % 2 == b % 2 then 0 else 1;
      assert (2 * XorNat(a / 2, b / 2) + low) / 2 == XorNat(a / 2, b / 2);
      if k > 0 {
        BitsOfXor(a / 2, b / 2, k - 1);
      }
    }
  }

  lemma {:induction false} XorBound(a: nat, b: nat, n: nat)
    requires a < Pow2(n) && b < Pow2(n)
    ensures XorNat(a, b) < Pow2(n)
    decreases n
  {
    if n > 0 && (a > 0 || b > 0) {
      XorBound(a / 2, b / 2, n - 1);
    }
  }

  lemma {:induction false} XorCancels(a: nat, b: nat)
    ensures XorNat(XorNat(a, b), b) == a
    decreases a + b
  {
    if a == 0 && b == 0 {
    } else {
      var low := if a % 2 == b % 2 then 0 else 1;
      var x := XorNat(a, b);
      assert x / 2 == XorNat(a / 2, b / 2) && x % 2 == low;
      XorCancels(a / 2, b / 2);
      if x > 0 || b > 0 {
        assert XorNat(x, b) == 2 * (a / 2) + if low == b % 2 then 0 else 1;
      }
    }
  }

  function Xor(a: byte, b: byte): byte {
    assert Pow2(8) == 256;
    XorBound(a, b, 8);
    XorNat(a, b)
  }

  // ---------- the keystream ----------

  datatype Schedule = Schedule(table: Table, j: byte)

  /** `(a + b) & 0xFF` */
  function Sum(a: int, b: int): byte {
    (a + b) % 256
  }

  function Swap(t: Table, i: byte, j: byte): Table {
    t[i := t[j]][j := t[i]]
  }

  /** One round: the position moves, and the two entries are exchanged. */
  function Advance(s: Schedule, index: nat): Schedule {
    var i := (index + 1) % 256;
    var j := Sum(s.j, s.table[i]);
    Schedule(Swap(s.table, i, j), j)
  }

  function After(table: Table, rounds: nat): Schedule {
    if rounds == 0 then Schedule(table, 0) else Advance(After(table, rounds - 1), rounds - 1)
  }

  /** `state[(state[i] + state[j]) & 0xFF]` */
  function OutputByte(s: Schedule, index: nat): byte {
    s.table[Sum(s.table[(index + 1) % 256], s.table[s.j])]
  }

  /** The byte that the data byte at this index is combined with. */
  function KeyByte(table: Table, index: nat): byte {
    OutputByte(After(table, index + 1), index)
  }

  function CryptWith(table: Table, data: seq<byte>): (r: seq<byte>)
    ensures |r| == |data|
  {
    seq(|data|, k requires 0 <= k < |data| => Xor(data[k], KeyByte(table, k)))
  }

  /** The in-place exchange of one round. */
  method Round(state: array<byte>, j: byte, index: nat) returns (j': byte)
    requires state.Length == 256
    modifies state
    ensures var i, a, b := (index + 1) % 256, old(state[(index + 1) % 256]), old(state[j']);
            && Sum(j, a) == j' && state[i] == b && state[j'] == a
            && forall k :: 0 <= k < 256 && k != i && k != j' ==> state[k] == old(state[k])
    ensures Schedule(state[..], j') == Advance(Schedule(old(state[..]), j), index)
  {
    var i := (index + 1) % 256;
    j' := Sum(j, state[i]);
    state[i], state[j'] := state[j'], state[i];
  }

  /** The in-place cipher: `output` and `state` are updated byte by byte, with a running j. */
  method CryptInPlace(table: Table, data: seq<byte>) returns (r: seq<byte>)
    ensures r == CryptWith(table, data)
  {
    hide Xor, XorNat, Advance;
    var output := new byte[|data|](k requires 0 <= k < |data| => data[k]);
    var state := new byte[256](k requires 0 <= k < 256 => table[k]);
    var j: byte := 0;
    assert state[..] == table;
    for index := 0 to output.Length
      invariant Schedule(state[..], j) == After(table, index)
      invariant forall k :: 0 <= k < index ==> output[k] == Xor(data[k], KeyByte(table, k))
      invariant forall k :: index <= k < output.Length ==> output[k] == data[k]
    {
      j := Round(state, j, index);
      var key := state[Sum(state[(index + 1) % 256], state[j])];
      assert key == OutputByte(Schedule(state[..], j), index) == KeyByte(table, index);
      output[index] := Xor(output[index], key);
    }
    r := output[..];
  }

  // ---------- properties ----------

  /** The cipher starts from the table as given, at position 0. */
  lemma StartOfRun(table: Table)
    ensures After(table, 0).table == table && After(table, 0).j == 0
  {
  }

  /**
   * What byte n of the data does: position j moves on by the entry at n + 1, those two entries are exchanged
   * and all others kept, and the byte is combined with the entry at the sum of the two.
   */
  lemma RoundLaw(table: Table, data: seq<byte>, n: nat)
    requires n < |data|
    ensures var i, before, after := (n + 1) % 256, After(table, n), After(table, n + 1);
            && after.j == (before.j as int + before.table[i] as int) % 256
            && after.table[i] == before.table[after.j] && after.table[after.j] == before.table[i]
            && (forall k :: 0 <= k < 256 && k != i && k != after.j ==> after.table[k] == before.table[k])
            && CryptWith(table, data)[n] ==
               XorNat(data[n], after.table[(after.table[i] as int + after.table[after.j] as int) % 256])
  {
    hide XorNat;
    assert After(table, n + 1) == Advance(After(table, n), n);
    assert CryptWith(table, data)[n] == Xor(data[n], KeyByte(table, n));
  }

  /** Decoding is encoding again, for byte strings of every length. */
  lemma CryptIsInvolution(table: Table, data: seq<byte>)
    ensures CryptWith(table, CryptWith(table, data)) == data
  {
    forall k | 0 <= k < |data|
      ensures CryptWith(table, CryptWith(table, data))[k] == data[k]
    {
      XorCancels(data[k], KeyByte(table, k));
    }
  }

  /** The keystream read off one message is the one read off any other. */
  lemma KeystreamIgnoresData(table: Table, a: seq<byte>, b: seq<byte>, k: nat)
    requires k < |a| && k < |b|
    ensures Xor(CryptWith(table, a)[k], a[k]) == Xor(CryptWith(table, b)[k], b[k])
  {
    XorRecovers(a[k], KeyByte(table, k));
    XorRecovers(b[k], KeyByte(table, k));
  }

  lemma XorRecovers(a: byte, b: byte)
    ensures Xor(Xor(a, b), a) == b
  {
    XorCommutes(a, b);
    XorCancels(b, a);
  }

  lemma {:induction false} XorCommutes(a: nat, b: nat)
    ensures XorNat(a, b) == XorNat(b, a)
    decreases a + b
  {
    if a > 0 || b > 0 {
      XorCommutes(a / 2, b / 2);
    }
  }

  lemma CryptOfPrefix(table: Table, data: seq<byte>, n: nat)
    requires n <= |data|
    ensures CryptWith(table, data[..n]) == CryptWith(table, data)[..n]
  {
  }

  lemma SwapPermutes(t: Table, i: byte, j: byte)
    ensures multiset(Swap(t, i, j)) == multiset(t)
  {
    var u := t[i := t[j]];
    assert multiset(u) == multiset(t) - multiset{t[i]} + multiset{t[j]};
    assert u[j] == t[j];
  }

  lemma AdvancePermutes(s: Schedule, index: nat)
    ensures multiset(Advance(s, index).table) == multiset(s.table)
  {
    SwapPermutes(s.table, (index + 1) % 256, Advance(s, index).j);
  }

  /** After any number of rounds the table is a permutation of the one it started from. */
  lemma {:induction false} TableStaysPermutation(table: Table, rounds: nat)
    ensures multiset(After(table, rounds).table) == multiset(table)
  {
    hide Advance;
    if rounds > 0 {
      TableStaysPermutation(table, rounds - 1);
      AdvancePermutes(After(table, rounds - 1), rounds - 1);
    }
  }

  // ---------- the protocol's table ----------

  /** Row r of `_CIPHER_STATE`, 16 entries a row. */
  function TableRow(r: nat): (row: seq<byte>)
    requires r < 16
    ensures |row| == 16
  {
    match r
    case 0 =>
      [0xbf, 0x9b, 0xe3, 0xca, 0x63, 0xa2, 0x4f, 0x68, 0x31, 0x12, 0xbe, 0xa4, 0x1e, 0x4c, 0xbd, 0x83]
    case 1 =>
      [0x17, 0x34, 0x56, 0x6a, 0xcf, 0x7d, 0x7e, 0xa9, 0xc4, 0x1c, 0xac, 0x3a, 0xbc, 0x84, 0xa0, 0x03]
    case 2 =>
      [0x24, 0x78, 0x90, 0xa8, 0x0c, 0xe7, 0x74, 0x2c, 0x29, 0x61, 0x6c, 0xd5, 0x2a, 0xc6, 0x20, 0x94]
    case 3 =>
      [0xda, 0x6b, 0xf7, 0x70, 0xcc, 0x0e, 0x42, 0x44, 0x5b, 0xe0, 0xce, 0xeb, 0x21, 0x82, 0xcb, 0xb2]
    case 4 =>
      [0x01, 0x86, 0xc7, 0x4e, 0xf9, 0x7b, 0x07, 0x91, 0x49, 0xd0, 0xd1, 0x64, 0x4a, 0x73, 0x48, 0x76]
    case 5 =>
      [0x08, 0x16, 0xf3, 0x93, 0x40, 0x60, 0x05, 0x57, 0x3c, 0x71, 0xe9, 0x98, 0x1f, 0xdb, 0x8f, 0xae]
    case 6 =>
      [0xe8, 0x99, 0xf5, 0x9e, 0xfe, 0x46, 0xaa, 0x4b, 0x4d, 0xd7, 0xd3, 0x3b, 0x47, 0x85, 0xd6, 0x9d]
    case 7 =>
      [0x97, 0x06, 0x2e, 0x51, 0x5e, 0x88, 0xa6, 0xd2, 0x04, 0x2b, 0xf1, 0x1d, 0xdf, 0xb0, 0x43, 0x3f]
    case 8 =>
      [0xba, 0x89, 0x81, 0x28, 0xf8, 0xff, 0x37, 0x0f, 0x3e, 0xb7, 0xde, 0x69, 0xec, 0xc5, 0x7f, 0x36]
    case 9 =>
      [0xb3, 0xc2, 0xe5, 0xb9, 0x25, 0x5a, 0xed, 0xb8, 0x19, 0x9c, 0xad, 0x1a, 0xbb, 0xdc, 0x02, 0xe1]
    case 10 =>
      [0x00, 0xf0, 0x32, 0xfb, 0xd4, 0xfd, 0xa7, 0x11, 0xc1, 0xcd, 0xb1, 0x15, 0xb5, 0xf6, 0x52, 0xe2]
    case 11 =>
      [0x26, 0x65, 0xa3, 0xb6, 0xf2, 0x5c, 0x14, 0x0b, 0x5f, 0x0d, 0xe6, 0x10, 0x79, 0x7c, 0x6d, 0xc3]
    case 12 =>
      [0x75, 0x27, 0x62, 0xef, 0x54, 0x38, 0x8b, 0xa1, 0x2f, 0xc9, 0x33, 0x87, 0xfa, 0x0a, 0x13, 0x96]
    case 13 =>
      [0x2d, 0x6f, 0x1b, 0x18, 0x8e, 0x50, 0x55, 0x53, 0xea, 0x8a, 0xd8, 0x39, 0x5d, 0x41, 0x9a, 0x8d]
    case 14 =>
      [0x7a, 0x22, 0x8c, 0x80, 0xee, 0x58, 0x59, 0x09, 0x92, 0xab, 0x95, 0x35, 0x66, 0x3d, 0x72, 0x45]
    case _ =>
      [0xd9, 0xaf, 0x67, 0xe4, 0x23, 0xb4, 0xfc, 0xc8, 0xc0, 0xa5, 0x9f, 0xdd, 0xf4, 0x6e, 0x77, 0x30]
  }

  function TableEntry(k: nat): byte
    requires k < 256
  {
    TableRow(k / 16)[k % 16]
  }

  /** `_CIPHER_STATE` */
  function CipherState(): Table {
    seq(256, k requires 0 <= k < 256 => TableEntry(k))
  }

  /** `_crypt` */
  function Crypt(data: seq<byte>): (r: seq<byte>)
    ensures |r| == |data|
  {
    CryptWith(CipherState(), data)
  }

  lemma CryptTwice(data: seq<byte>)
    ensures Crypt(Crypt(data)) == data
  {
    CryptIsInvolution(CipherState(), data);
  }
}
