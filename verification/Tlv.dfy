/** The type/length/value records of a discovery payload. */
module Tlv {
  import opened Results
  import opened Cipher

  /** A 16-bit number, the range of `!H`. */
  type word = w: int | 0 <= w < 0x1_0000

  datatype Record = Record(kind: word, value: seq<byte>)

  ghost predicate Encodable(rs: seq<Record>) {
    forall i :: 0 <= i < |rs| ==> |rs[i].value| < 0x1_0000
  }

  function High(w: word): byte {
    w / 256
  }

  function Low(w: word): byte {
    w % 256
  }

  /** `struct.unpack("!H", ...)` of two bytes */
  function Word(high: byte, low: byte): word {
    var h: int, l: int := high, low;
    h * 256 + l
  }

  lemma WordOfParts(w: word)
    ensures Word(High(w), Low(w)) == w
  {
  }

  lemma PartsOfWord(high: byte, low: byte)
    ensures High(Word(high, low)) == high && Low(Word(high, low)) == low
  {
  }

  /** The number that bytes spell in network order. */
  function BigEndian(b: seq<byte>): nat {
    if b == [] then 0
    else
      var low: int := b[|b| - 1];
      BigEndian(b[..|b| - 1]) * 256 + low
  }

  lemma BigEndianAppends(b: seq<byte>, last: byte)
    ensures var low: int := last; BigEndian(b + [last]) == BigEndian(b) * 256 + low
  {
    assert (b + [last])[..|b|] == b;
  }

  lemma WordIsBigEndian(high: byte, low: byte)
    ensures BigEndian([high, low]) == Word(high, low)
  {
    BigEndianAppends([], high);
    BigEndianAppends([high], low);
    assert [] + [high] == [high] && [high] + [low] == [high, low];
  }

  function Encode(r: Record): (b: seq<byte>)
    requires |r.value| < 0x1_0000
    ensures |b| == 4 + |r.value|
  {
    [High(r.kind), Low(r.kind), High(|r.value|), Low(|r.value|)] + r.value
  }

  /** The wire form of a record: its type and its length in network order, then its value. */
  lemma RecordLayout(r: Record)
    requires |r.value| < 0x1_0000
    ensures var b := Encode(r);
            && BigEndian(b[..2]) == r.kind && BigEndian(b[2..4]) == |r.value| && b[4..] == r.value
  {
    var b := Encode(r);
    WordOfParts(r.kind);
    WordOfParts(|r.value|);
    WordIsBigEndian(b[0], b[1]);
    WordIsBigEndian(b[2], b[3]);
    assert b[..2] == [b[0], b[1]] && b[2..4] == [b[2], b[3]];
  }

  /** The concatenation of the records. */
  ghost function Serialize(rs: seq<Record>): seq<byte>
    requires Encodable(rs)
  {
    if rs == [] then [] else Encode(rs[0]) + Serialize(rs[1..])
  }

  /** What the loop reads from this offset on: all records, or None when the bytes do not split into records. */
  function Records(payload: seq<byte>, offset: nat): (r: Option<seq<Record>>)
    requires offset <= |payload|
    decreases |payload| - offset
  {
    if offset == |payload| then Some([])
    else if |payload| - offset < 4 then None
    else
      var end := offset + 4 + Word(payload[offset + 2], payload[offset + 3]);
      if end > |payload| then None
      else
        match Records(payload, end)
        case None => None
        case Some(rest) =>
          Some([Record(Word(payload[offset], payload[offset + 1]), payload[offset + 4..end])] + rest)
  }

  /** The dictionary that the loop leaves: later records of a type replace earlier ones. */
  function LastWins(rs: seq<Record>): (m: map<int, seq<byte>>) {
    if rs == [] then map[]
    else LastWins(rs[..|rs| - 1])[rs[|rs| - 1].kind := rs[|rs| - 1].value]
  }

  /** The records read so far, followed by what the rest of the payload yields. */
  ghost function Then(done: seq<Record>, rest: Option<seq<Record>>): Option<seq<Record>> {
    match rest
    case None => None
    case Some(rs) => Some(done + rs)
  }

  lemma ThenStarts(rest: Option<seq<Record>>)
    ensures Then([], rest) == rest
  {
    if rest.Some? {
      assert [] + rest.value == rest.value;
    }
  }

  lemma ThenMoves(done: seq<Record>, r: Record, rest: Option<seq<Record>>)
    ensures Then(done, Then([r], rest)) == Then(done + [r], rest)
    ensures LastWins(done + [r]) == LastWins(done)[r.kind := r.value]
  {
    if rest.Some? {
      assert done + ([r] + rest.value) == (done + [r]) + rest.value;
    }
    assert (done + [r])[..|done|] == done;
  }

  method ReadValues(payload: seq<byte>) returns (values: Option<map<int, seq<byte>>>)
    ensures values == match Records(payload, 0)
                      case None => None
                      case Some(rs) => Some(LastWins(rs))
  {
    var found: map<int, seq<byte>> := map[];
    var offset := 0;
    ghost var done: seq<Record> := [];
    ThenStarts(Records(payload, 0));
    while offset < |payload|
      invariant offset <= |payload|
      invariant found == LastWins(done)
      invariant Records(payload, 0) == Then(done, Records(payload, offset))
      decreases |payload| - offset
    {
      if |payload| - offset < 4 {
        return None;
      }
      var kind := Word(payload[offset], payload[offset + 1]);
      var length := Word(payload[offset + 2], payload[offset + 3]);
      var start := offset + 4;
      var end := start + length;
      if end > |payload| {
        return None;
      }
      var value := payload[start..end];
      assert Records(payload, offset) == Then([Record(kind, value)], Records(payload, end));
      ThenMoves(done, Record(kind, value), Records(payload, end));
      found := found[kind := value];
      offset := end;
      done := done + [Record(kind, value)];
    }
    assert done + [] == done;
    values := Some(found);
  }

  // ---------- unique decomposition ----------

  lemma {:induction false} RecordsAreSound(payload: seq<byte>, offset: nat)
    requires offset <= |payload| && Records(payload, offset).Some?
    ensures Encodable(Records(payload, offset).value)
    ensures Serialize(Records(payload, offset).value) == payload[offset..]
    decreases |payload| - offset
  {
    if offset < |payload| {
      var end := offset + 4 + Word(payload[offset + 2], payload[offset + 3]);
      RecordsAreSound(payload, end);
      var rs := Records(payload, offset).value;
      assert rs[1..] == Records(payload, end).value;
      PartsOfWord(payload[offset], payload[offset + 1]);
      PartsOfWord(payload[offset + 2], payload[offset + 3]);
      assert Encode(rs[0]) == payload[offset..end];
      assert payload[offset..] == payload[offset..end] + payload[end..];
    }
  }

  lemma {:induction false} RecordsAreComplete(payload: seq<byte>, offset: nat, rs: seq<Record>)
    requires offset <= |payload| && Encodable(rs) && payload[offset..] == Serialize(rs)
    ensures Records(payload, offset) == Some(rs)
    decreases |rs|
  {
    if rs != [] {
      var end := ReadOne(payload, offset, rs[0], Serialize(rs[1..]));
      RecordsAreComplete(payload, end, rs[1..]);
      assert rs == [rs[0]] + rs[1..];
    }
  }

  lemma ReadOne(payload: seq<byte>, offset: nat, r: Record, tail: seq<byte>) returns (end: nat)
    requires offset <= |payload| && |r.value| < 0x1_0000 && payload[offset..] == Encode(r) + tail
    ensures offset < end <= |payload| && payload[end..] == tail
    ensures Records(payload, offset) == match Records(payload, end)
                                        case None => None
                                        case Some(rest) => Some([r] + rest)
  {
    end := offset + |Encode(r)|;
    HeadAndTail(payload, offset, Encode(r), tail);
    assert payload[offset + 0] == High(r.kind) && payload[offset + 1] == Low(r.kind);
    assert payload[offset + 2] == High(|r.value|) && payload[offset + 3] == Low(|r.value|);
    WordOfParts(r.kind);
    WordOfParts(|r.value|);
    assert payload[offset + 4..end] == r.value;
  }

  lemma HeadAndTail(payload: seq<byte>, offset: nat, head: seq<byte>, tail: seq<byte>)
    requires offset <= |payload| && payload[offset..] == head + tail
    ensures offset + |head| <= |payload|
    ensures forall i :: 0 <= i < |head| ==> payload[offset + i] == head[i]
    ensures payload[offset + |head|..] == tail
  {
    var rest := payload[offset..];
    assert forall i | 0 <= i < |head| :: payload[offset + i] == rest[i];
    assert payload[offset + |head|..] == rest[|head|..];
  }

  /** A payload is accepted exactly when it is a concatenation of records, and then it is so in one way. */
  lemma RecordsDecompose(payload: seq<byte>, rs: seq<Record>)
    ensures Records(payload, 0) == Some(rs) <==> Encodable(rs) && Serialize(rs) == payload
  {
    assert payload[0..] == payload;
    if Records(payload, 0) == Some(rs) {
      RecordsAreSound(payload, 0);
    }
    if Encodable(rs) && Serialize(rs) == payload {
      RecordsAreComplete(payload, 0, rs);
    }
  }

  lemma SerializeIsInjective(a: seq<Record>, b: seq<Record>)
    requires Encodable(a) && Encodable(b) && Serialize(a) == Serialize(b)
    ensures a == b
  {
    RecordsDecompose(Serialize(a), a);
    RecordsDecompose(Serialize(a), b);
  }

  /** The dictionary has exactly the types that occur, each with the value of its last record. */
  lemma {:induction false} LastWinsMeaning(rs: seq<Record>, kind: int)
    ensures kind in LastWins(rs) <==> exists i :: 0 <= i < |rs| && rs[i].kind == kind
    ensures kind in LastWins(rs) ==>
              exists i :: && 0 <= i < |rs| && rs[i].kind == kind && LastWins(rs)[kind] == rs[i].value
                          && forall k :: i < k < |rs| ==> rs[k].kind != kind
  {
    if rs != [] {
      var n := |rs| - 1;
      var below := rs[..n];
      LastWinsMeaning(below, kind);
      if rs[n].kind != kind && kind in LastWins(below) {
        var i :| && 0 <= i < |below| && below[i].kind == kind && LastWins(below)[kind] == below[i].value
                 && forall k :: i < k < |below| ==> below[k].kind != kind;
        assert rs[i].kind == kind && LastWins(rs)[kind] == rs[i].value;
        forall k | i < k < |rs|
          ensures rs[k].kind != kind
        {
          assert k < n ==> below[k].kind != kind;
        }
      }
      if i :| 0 <= i < |rs| && rs[i].kind == kind {
        assert i < n ==> below[i].kind == kind;
      }
    }
  }
}
