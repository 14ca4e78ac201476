/** The CBOR value skipper of internal/webauthn/verify.go, against a printer for
    the part of RFC 8949 section 3 that it handles: definite lengths, arguments of
    0, 1, 2 or 4 bytes (the preferred width or a longer one), no tags. */
module Cbor {
  import opened Bytes

  /** How many bytes follow the initial byte to hold its argument. */
  datatype Width = W0 | W1 | W2 | W4

  /** A data item with the argument width chosen for each head. The entries of a
      map are listed flat: key, value, key, value, ... */
  datatype Item =
    | Integer(negative: bool, w: Width, n: nat)
    | ByteString(w: Width, payload: seq<byte>)
    | TextString(w: Width, payload: seq<byte>)
    | Array(w: Width, items: seq<Item>)
    | Map(w: Width, items: seq<Item>)
    | Simple(w: Width, n: nat)

  predicate Fits(w: Width, n: nat) {
    match w
    case W0 => n < 24
    case W1 => n < 0x100
    case W2 => n < 0x1_0000
    case W4 => n < 0x1_0000_0000
  }

  predicate WellFormed(item: Item) {
    match item
    case Integer(_, w, n) => Fits(w, n)
    case ByteString(w, payload) => Fits(w, |payload|)
    case TextString(w, payload) => Fits(w, |payload|)
    case Array(w, items) => Fits(w, |items|) && AllWellFormed(items)
    case Map(w, items) => |items| % 2 == 0 && Fits(w, |items| / 2) && AllWellFormed(items)
    case Simple(w, n) => Fits(w, n)
  }

  predicate AllWellFormed(items: seq<Item>) {
    items == [] || (WellFormed(items[0]) && AllWellFormed(items[1..]))
  }

  // ---------- printing ----------

  /** The head of an item: its major type and its argument. */
  function Head(major: nat, w: Width, n: nat): (s: seq<byte>)
    requires major < 8 && Fits(w, n)
    ensures 1 <= |s| <= 5 && s[0] / 32 == major
  {
    match w
    case W0 => [32 * major + n]
    case W1 => [32 * major + 24, n]
    case W2 => [32 * major + 25] + ToBE(n, 2)
    case W4 => [32 * major + 26] + ToBE(n, 4)
  }

  function MajorType(item: Item): nat {
    match item
    case Integer(negative, _, _) => if negative then 1 else 0
    case ByteString(_, _) => 2
    case TextString(_, _) => 3
    case Array(_, _) => 4
    case Map(_, _) => 5
    case Simple(_, _) => 7
  }

  function Print(item: Item): (s: seq<byte>)
    requires WellFormed(item)
    ensures s != [] && s[0] / 32 == MajorType(item)
  {
    match item
    case Integer(negative, w, n) => Head(if negative then 1 else 0, w, n)
    case ByteString(w, payload) => Head(2, w, |payload|) + payload
    case TextString(w, payload) => Head(3, w, |payload|) + payload
    case Array(w, items) => Head(4, w, |items|) + PrintAll(items)
    case Map(w, items) => Head(5, w, |items| / 2) + PrintAll(items)
    case Simple(w, n) => Head(7, w, n)
  }

  function PrintAll(items: seq<Item>): seq<byte>
    requires AllWellFormed(items)
  {
    if items == [] then [] else Print(items[0]) + PrintAll(items[1..])
  }

  lemma PrintPair(items: seq<Item>)
    requires |items| >= 2 && AllWellFormed(items)
    ensures AllWellFormed(items[2..]) && WellFormed(items[0]) && WellFormed(items[1])
    ensures PrintAll(items) == Print(items[0]) + (Print(items[1]) + PrintAll(items[2..]))
  {
    assert items[1..][1..] == items[2..];
    assert items[1..][0] == items[1];
  }

  /** `s` stands in `data` at offset `pos`. */
  ghost predicate HoldsAt(data: seq<byte>, pos: nat, s: seq<byte>) {
    pos + |s| <= |data| && data[pos..pos + |s|] == s
  }

  lemma HoldsAtSplit(data: seq<byte>, pos: nat, s: seq<byte>, t: seq<byte>)
    requires HoldsAt(data, pos, s + t)
    ensures HoldsAt(data, pos, s) && HoldsAt(data, pos + |s|, t)
  {
    assert data[pos..pos + |s|] == (s + t)[..|s|];
    assert data[pos + |s|..pos + |s| + |t|] == (s + t)[|s|..];
  }

  // ---------- skipping ----------

  /** Where a scan ends, or the run-time panic that ends it. */
  datatype Scan = Panic | At(pos: nat)

  /** The argument of a head and the offset after it. */
  datatype Argument = Argument(n: nat, pos: nat)

  /** Reads the argument announced by `additional`. One byte is indexed, so it must
      lie within the length; two or four bytes are sliced, and Go bounds a slice
      expression by the capacity, so `spare` (the bytes between length and capacity)
      can be read too. A larger `additional` reads nothing and yields `other`. */
  function ReadArgument(data: seq<byte>, spare: seq<byte>, pos: nat, additional: nat, other: nat)
    : (a: Option<Argument>)
    ensures a.Some? ==> pos <= a.value.pos <= pos + 4
    ensures a.Some? && other < 32 && additional < 32 ==> a.value.n < 0x1_0000_0000
  {
    if additional < 24 then
      Some(Argument(additional, pos))
    else if additional == 24 then
      if pos < |data| then Some(Argument(data[pos], pos + 1)) else None
    else if additional == 25 then
      if pos + 2 <= |data + spare| then
        FromBEBound((data + spare)[pos..pos + 2]);
        Pow256Values();
        Some(Argument(FromBE((data + spare)[pos..pos + 2]), pos + 2))
      else None
    else if additional == 26 then
      if pos + 4 <= |data + spare| then
        FromBEBound((data + spare)[pos..pos + 4]);
        Pow256Values();
        Some(Argument(FromBE((data + spare)[pos..pos + 4]), pos + 4))
      else None
    else
      Some(Argument(other, pos))
  }

  function Remaining(data: seq<byte>, pos: nat): nat {
    if pos < |data| then |data| - pos else 0
  }

  /** `skipCBORValue`: the offset after the value at `pos`. */
  function Skip(data: seq<byte>, spare: seq<byte>, pos: nat): (r: Scan)
    ensures r.At? ==> pos <= r.pos
    ensures r.At? && pos < |data| ==> pos < r.pos
    decreases Remaining(data, pos), 0
  {
    if pos >= |data| then At(pos) else
    match ReadArgument(data, spare, pos + 1, data[pos] % 32, 0)
    case None => Panic
    case Some(a) =>
      var major := data[pos] / 32;
      if major == 2 || major == 3 then At(a.pos + a.n)
      else if major == 4 then SkipMany(data, spare, a.pos, a.n)
      else if major == 5 then SkipMany(data, spare, a.pos, 2 * a.n)
      else At(a.pos)
  }

  /** The offset after `count` values. */
  function SkipMany(data: seq<byte>, spare: seq<byte>, pos: nat, count: nat): (r: Scan)
    ensures r.At? ==> pos <= r.pos
    decreases Remaining(data, pos), count
  {
    if count == 0 then At(pos) else
    match Skip(data, spare, pos)
    case Panic => Panic
    case At(p) => SkipMany(data, spare, p, count - 1)
  }

  /** The number of calls of `skipCBORValue` that skipping the value at `pos` makes. */
  function Calls(data: seq<byte>, spare: seq<byte>, pos: nat): nat
    decreases Remaining(data, pos), 0
  {
    if pos >= |data| then 1 else
    match ReadArgument(data, spare, pos + 1, data[pos] % 32, 0)
    case None => 1
    case Some(a) =>
      if data[pos] / 32 == 4 then 1 + CallsMany(data, spare, a.pos, a.n)
      else if data[pos] / 32 == 5 then 1 + CallsMany(data, spare, a.pos, 2 * a.n)
      else 1
  }

  function CallsMany(data: seq<byte>, spare: seq<byte>, pos: nat, count: nat): nat
    decreases Remaining(data, pos), count
  {
    if count == 0 then 0 else
    Calls(data, spare, pos) +
    match Skip(data, spare, pos)
    case Panic => 0
    case At(p) => CallsMany(data, spare, p, count - 1)
  }

  /** The recursive skipper with its loops, and how often it is called. */
  method SkipCBORValue(data: seq<byte>, spare: seq<byte>, start: nat) returns (r: Scan, ghost calls: nat)
    ensures r == Skip(data, spare, start) && calls == Calls(data, spare, start)
    decreases Remaining(data, start)
  {
    calls := 1;
    if start >= |data| {
      return At(start), calls;
    }
    var major := data[start] / 32;
    var argument := ReadArgument(data, spare, start + 1, data[start] % 32, 0);
    if argument.None? {
      return Panic, calls;
    }
    var length, pos := argument.value.n, argument.value.pos;
    assert Remaining(data, pos) < Remaining(data, start);

    ghost var body := pos;
    ghost var inner: nat;
    if major == 2 || major == 3 {
      return At(pos + length), calls;
    } else if major == 4 {
      for i := 0 to length
        invariant body <= pos
        invariant SkipMany(data, spare, body, length) == SkipMany(data, spare, pos, length - i)
        invariant calls + CallsMany(data, spare, pos, length - i) == 1 + CallsMany(data, spare, body, length)
      {
        r, inner := SkipCBORValue(data, spare, pos);
        calls := calls + inner;
        if r.Panic? { return; }
        pos := r.pos;
      }
      return At(pos), calls;
    } else if major == 5 {
      for i := 0 to length
        invariant body <= pos
        invariant SkipMany(data, spare, body, 2 * length) == SkipMany(data, spare, pos, 2 * (length - i))
        invariant calls + CallsMany(data, spare, pos, 2 * (length - i)) == 1 + CallsMany(data, spare, body, 2 * length)
      {
        r, inner := SkipCBORValue(data, spare, pos);
        calls := calls + inner;
        if r.Panic? { return; }
        pos := r.pos;
        r, inner := SkipCBORValue(data, spare, pos);
        calls := calls + inner;
        if r.Panic? { return; }
        pos := r.pos;
      }
      return At(pos), calls;
    }
    return At(pos), calls;
  }

  // ---------- skipping undoes printing ----------

  /** Reading a printed head gives back its argument. */
  lemma ReadPrintedHead(data: seq<byte>, spare: seq<byte>, pos: nat, major: nat, w: Width, n: nat, other: nat)
    requires major < 8 && Fits(w, n)
    requires HoldsAt(data, pos, Head(major, w, n))
    ensures data[pos] / 32 == major
    ensures data[pos] % 32 == (match w case W0 => n case W1 => 24 case W2 => 25 case W4 => 26)
    ensures ReadArgument(data, spare, pos + 1, data[pos] % 32, other)
         == Some(Argument(n, pos + |Head(major, w, n)|))
  {
    var s := Head(major, w, n);
    assert data[pos] == s[0] by { assert data[pos] == data[pos..pos + |s|][0]; }
    Pow256Values();
    match w
    case W0 =>
    case W1 => assert data[pos + 1] == data[pos..pos + |s|][1];
    case W2 =>
      assert (data + spare)[pos + 1..pos + 3] == data[pos..pos + |s|][1..] == ToBE(n, 2);
      FromToBE(n, 2);
    case W4 =>
      assert (data + spare)[pos + 1..pos + 5] == data[pos..pos + |s|][1..] == ToBE(n, 4);
      FromToBE(n, 4);
  }

  /** What a skip does after a printed head. */
  lemma SkipAfterHead(data: seq<byte>, spare: seq<byte>, pos: nat, major: nat, w: Width, n: nat)
    requires major < 8 && Fits(w, n)
    requires HoldsAt(data, pos, Head(major, w, n))
    ensures var body := pos + |Head(major, w, n)|;
            Skip(data, spare, pos) ==
              if major == 2 || major == 3 then At(body + n)
              else if major == 4 then SkipMany(data, spare, body, n)
              else if major == 5 then SkipMany(data, spare, body, 2 * n)
              else At(body)
  {
    ReadPrintedHead(data, spare, pos, major, w, n, 0);
  }

  /** From any offset that holds a printed value, however deeply nested, the skip
      moves by exactly the length of that value. */
  lemma {:induction false} SkipPrinted(data: seq<byte>, spare: seq<byte>, pos: nat, item: Item)
    requires WellFormed(item)
    requires HoldsAt(data, pos, Print(item))
    ensures Skip(data, spare, pos) == At(pos + |Print(item)|)
    decreases item, 1
  {
    hide Skip, SkipMany, Head, PrintAll, HoldsAt;
    match item
    case Integer(negative, w, n) =>
      SkipAfterHead(data, spare, pos, if negative then 1 else 0, w, n);
    case ByteString(w, payload) =>
      StringPrinted(data, spare, pos, 2, w, payload);
    case TextString(w, payload) =>
      StringPrinted(data, spare, pos, 3, w, payload);
    case Array(w, items) =>
      ContainerPrinted(data, spare, pos, 4, w, |items|, |items|, PrintAll(items));
      SkipManyPrinted(data, spare, pos + |Head(4, w, |items|)|, items);
    case Map(w, items) =>
      ContainerPrinted(data, spare, pos, 5, w, |items| / 2, |items|, PrintAll(items));
      SkipManyPrinted(data, spare, pos + |Head(5, w, |items| / 2)|, items);
    case Simple(w, n) =>
      SkipAfterHead(data, spare, pos, 7, w, n);
  }

  lemma StringPrinted(data: seq<byte>, spare: seq<byte>, pos: nat, major: nat, w: Width, payload: seq<byte>)
    requires 2 <= major <= 3 && Fits(w, |payload|)
    requires HoldsAt(data, pos, Head(major, w, |payload|) + payload)
    ensures Skip(data, spare, pos) == At(pos + |Head(major, w, |payload|)| + |payload|)
  {
    HoldsAtSplit(data, pos, Head(major, w, |payload|), payload);
    SkipAfterHead(data, spare, pos, major, w, |payload|);
  }

  lemma ContainerPrinted(
      data: seq<byte>, spare: seq<byte>, pos: nat, major: nat, w: Width, n: nat, count: nat, body: seq<byte>)
    requires Fits(w, n)
    requires (major == 4 && count == n) || (major == 5 && count == 2 * n)
    requires HoldsAt(data, pos, Head(major, w, n) + body)
    ensures HoldsAt(data, pos + |Head(major, w, n)|, body)
    ensures Skip(data, spare, pos) == SkipMany(data, spare, pos + |Head(major, w, n)|, count)
  {
    HoldsAtSplit(data, pos, Head(major, w, n), body);
    SkipAfterHead(data, spare, pos, major, w, n);
  }

  lemma {:induction false} SkipManyPrinted(data: seq<byte>, spare: seq<byte>, pos: nat, items: seq<Item>)
    requires AllWellFormed(items)
    requires HoldsAt(data, pos, PrintAll(items))
    ensures SkipMany(data, spare, pos, |items|) == At(pos + |PrintAll(items)|)
    decreases items, 0
  {
    hide Skip, Print, WellFormed, HoldsAt;
    if items != [] {
      HoldsAtSplit(data, pos, Print(items[0]), PrintAll(items[1..]));
      SkipPrinted(data, spare, pos, items[0]);
      SkipManyPrinted(data, spare, pos + |Print(items[0])|, items[1..]);
    }
  }

  // ---------- when a skip panics, whatever the input ----------

  /** A head whose argument ends beyond what Go lets the code read: one byte beyond the
      length, two or four bytes beyond the capacity. */
  predicate TruncatedHead(data: seq<byte>, spare: seq<byte>, pos: nat)
    requires pos < |data|
  {
    match data[pos] % 32
    case 24 => pos + 1 >= |data|
    case 25 => pos + 3 > |data| + |spare|
    case 26 => pos + 5 > |data| + |spare|
    case _ => false
  }

  /** The offsets of the heads that are read when `need` values are skipped from `pos`,
      containers opened into their elements, up to the first truncated head. */
  function Heads(data: seq<byte>, spare: seq<byte>, pos: nat, need: nat): (hs: seq<nat>)
    ensures |hs| <= Remaining(data, pos) && forall h | h in hs :: h < |data|
    decreases Remaining(data, pos)
  {
    if need == 0 || pos >= |data| then []
    else if TruncatedHead(data, spare, pos) then [pos]
    else
      var a := ReadArgument(data, spare, pos + 1, data[pos] % 32, 0).value;
      [pos] + match data[pos] / 32
              case 2 => Heads(data, spare, a.pos + a.n, need - 1)
              case 3 => Heads(data, spare, a.pos + a.n, need - 1)
              case 4 => Heads(data, spare, a.pos, need - 1 + a.n)
              case 5 => Heads(data, spare, a.pos, need - 1 + 2 * a.n)
              case _ => Heads(data, spare, a.pos, need - 1)
  }

  /** Some head among them is truncated. */
  predicate MeetsTruncated(data: seq<byte>, spare: seq<byte>, pos: nat, need: nat) {
    exists h | h in Heads(data, spare, pos, need) :: TruncatedHead(data, spare, h)
  }

  /** The first head is truncated, or some later one is. */
  lemma HeadsStep(data: seq<byte>, spare: seq<byte>, pos: nat, need: nat)
    requires pos < |data| && need > 0
    ensures MeetsTruncated(data, spare, pos, need) <==>
              match ReadArgument(data, spare, pos + 1, data[pos] % 32, 0)
              case None => true
              case Some(a) =>
                var major := data[pos] / 32;
                if major == 2 || major == 3 then MeetsTruncated(data, spare, a.pos + a.n, need - 1)
                else if major == 4 then MeetsTruncated(data, spare, a.pos, need - 1 + a.n)
                else if major == 5 then MeetsTruncated(data, spare, a.pos, need - 1 + 2 * a.n)
                else MeetsTruncated(data, spare, a.pos, need - 1)
  {
    assert Heads(data, spare, pos, need)[0] == pos;
  }

  /** Skipping one of `need + 1` values: it panics, or the rest goes on where it ends. */
  lemma {:induction false} SkipMeets(data: seq<byte>, spare: seq<byte>, pos: nat, need: nat)
    ensures MeetsTruncated(data, spare, pos, need + 1) <==>
              match Skip(data, spare, pos) case Panic => true case At(p) => MeetsTruncated(data, spare, p, need)
    decreases Remaining(data, pos), 0
  {
    hide MeetsTruncated, SkipMany;
    if pos >= |data| {
      NothingMeets(data, spare, pos, need);
    } else {
      HeadsStep(data, spare, pos, need + 1);
      var a := ReadArgument(data, spare, pos + 1, data[pos] % 32, 0);
      if a.Some? && data[pos] / 32 == 4 {
        SkipManyMeets(data, spare, a.value.pos, a.value.n, need);
      } else if a.Some? && data[pos] / 32 == 5 {
        SkipManyMeets(data, spare, a.value.pos, 2 * a.value.n, need);
      }
    }
  }

  lemma NothingMeets(data: seq<byte>, spare: seq<byte>, pos: nat, need: nat)
    requires pos >= |data|
    ensures !MeetsTruncated(data, spare, pos, need) && !MeetsTruncated(data, spare, pos, need + 1)
  {
  }

  lemma {:induction false} SkipManyMeets(data: seq<byte>, spare: seq<byte>, pos: nat, count: nat, need: nat)
    ensures MeetsTruncated(data, spare, pos, count + need) <==>
              match SkipMany(data, spare, pos, count)
              case Panic => true
              case At(p) => MeetsTruncated(data, spare, p, need)
    decreases Remaining(data, pos), count
  {
    hide MeetsTruncated, Skip;
    if count > 0 {
      SkipMeets(data, spare, pos, count - 1 + need);
      var r := Skip(data, spare, pos);
      if r.At? {
        SkipManyMeets(data, spare, r.pos, count - 1, need);
      }
    }
  }

  /** Main result: on arbitrary bytes skipping values panics exactly when one of the heads
      that it comes to is truncated. */
  lemma SkipPanicsIff(data: seq<byte>, spare: seq<byte>, pos: nat, count: nat)
    ensures SkipMany(data, spare, pos, count).Panic? <==> MeetsTruncated(data, spare, pos, count)
  {
    SkipManyMeets(data, spare, pos, count, 0);
  }

  // ---------- how much work a skip is, whatever the input ----------

  /** How many of the values wanted are still wanting when the bytes run out. */
  function Missing(data: seq<byte>, spare: seq<byte>, pos: nat, need: nat): nat
    decreases Remaining(data, pos)
  {
    if pos >= |data| then need
    else if need == 0 || TruncatedHead(data, spare, pos) then 0
    else
      var a := ReadArgument(data, spare, pos + 1, data[pos] % 32, 0).value;
      match data[pos] / 32
      case 2 => Missing(data, spare, a.pos + a.n, need - 1)
      case 3 => Missing(data, spare, a.pos + a.n, need - 1)
      case 4 => Missing(data, spare, a.pos, need - 1 + a.n)
      case 5 => Missing(data, spare, a.pos, need - 1 + 2 * a.n)
      case _ => Missing(data, spare, a.pos, need - 1)
  }

  /** The heads read and the values wanting. */
  function Work(data: seq<byte>, spare: seq<byte>, pos: nat, need: nat): nat {
    |Heads(data, spare, pos, need)| + Missing(data, spare, pos, need)
  }

  lemma WorkStep(data: seq<byte>, spare: seq<byte>, pos: nat, need: nat)
    requires pos < |data| && need > 0
    ensures Work(data, spare, pos, need) == 1 +
              match ReadArgument(data, spare, pos + 1, data[pos] % 32, 0)
              case None => 0
              case Some(a) =>
                var major := data[pos] / 32;
                if major == 2 || major == 3 then Work(data, spare, a.pos + a.n, need - 1)
                else if major == 4 then Work(data, spare, a.pos, need - 1 + a.n)
                else if major == 5 then Work(data, spare, a.pos, need - 1 + 2 * a.n)
                else Work(data, spare, a.pos, need - 1)
  {
  }

  lemma WorkPastEnd(data: seq<byte>, spare: seq<byte>, pos: nat, need: nat)
    requires pos >= |data|
    ensures Work(data, spare, pos, need) == need
  {
  }

  lemma {:induction false} SkipWork(data: seq<byte>, spare: seq<byte>, pos: nat, need: nat)
    ensures Work(data, spare, pos, need + 1) == Calls(data, spare, pos) +
              match Skip(data, spare, pos) case Panic => 0 case At(p) => Work(data, spare, p, need)
    decreases Remaining(data, pos), 0
  {
    hide Work, SkipMany, CallsMany, Heads, Missing;
    if pos >= |data| {
      WorkPastEnd(data, spare, pos, need);
      WorkPastEnd(data, spare, pos, need + 1);
    } else {
      WorkStep(data, spare, pos, need + 1);
      var a := ReadArgument(data, spare, pos + 1, data[pos] % 32, 0);
      if a.Some? && data[pos] / 32 == 4 {
        SkipManyWork(data, spare, a.value.pos, a.value.n, need);
      } else if a.Some? && data[pos] / 32 == 5 {
        SkipManyWork(data, spare, a.value.pos, 2 * a.value.n, need);
      }
    }
  }

  lemma {:induction false} SkipManyWork(data: seq<byte>, spare: seq<byte>, pos: nat, count: nat, need: nat)
    ensures Work(data, spare, pos, count + need) == CallsMany(data, spare, pos, count) +
              match SkipMany(data, spare, pos, count) case Panic => 0 case At(p) => Work(data, spare, p, need)
    decreases Remaining(data, pos), count
  {
    hide Work, Skip, Calls;
    if count > 0 {
      SkipWork(data, spare, pos, count - 1 + need);
      var r := Skip(data, spare, pos);
      if r.At? {
        SkipManyWork(data, spare, r.pos, count - 1, need);
      }
    }
  }

  /** Main result: on arbitrary bytes the calls are one for each head read, at most one a
      byte, and one for each value that is announced and wanting when the bytes run out:
      every call reads a head exactly when nothing is wanting. */
  lemma CallsExact(data: seq<byte>, spare: seq<byte>, pos: nat, count: nat)
    ensures CallsMany(data, spare, pos, count)
         == |Heads(data, spare, pos, count)| + Missing(data, spare, pos, count)
    ensures |Heads(data, spare, pos, count)| <= Remaining(data, pos)
    ensures CallsMany(data, spare, pos, count) == |Heads(data, spare, pos, count)|
            <==> Missing(data, spare, pos, count) == 0
  {
    hide Heads, Missing, CallsMany;
    SkipManyWork(data, spare, pos, count, 0);
    NoWork(data, spare, pos, count);
  }

  lemma NoWork(data: seq<byte>, spare: seq<byte>, pos: nat, count: nat)
    ensures var r := SkipMany(data, spare, pos, count); r.At? ==> Work(data, spare, r.pos, 0) == 0
  {
    hide SkipMany;
  }

  /** No bound in the length: five bytes can take any number of calls up to 2^32. */
  lemma ManyCalls(n: nat, spare: seq<byte>)
    requires n < 0x1_0000_0000
    ensures var data := [0x9A] + ToBE(n, 4); |data| == 5 && Calls(data, spare, 0) == 1 + n
  {
    var data := [0x9A] + ToBE(n, 4);
    assert data == Head(4, W4, n);
    assert HoldsAt(data, 0, data) by { assert data[0..5] == data; }
    ReadPrintedHead(data, spare, 0, 4, W4, n, 0);
    CallsPastEnd(data, spare, 5, n);
  }

  lemma {:induction false} CallsPastEnd(data: seq<byte>, spare: seq<byte>, pos: nat, count: nat)
    requires pos >= |data|
    ensures CallsMany(data, spare, pos, count) == count
  {
    if count > 0 {
      CallsPastEnd(data, spare, pos, count - 1);
    }
  }

  // ---------- no overflow, whatever the input ----------

  const MAX_OVERSHOOT := 0x1_0000_0003

  /** On every input the offset stays within 2^32+3 bytes of the end of the buffer,
      so Go's 64-bit `int` arithmetic never wraps. */
  lemma {:induction false} SkipBounded(data: seq<byte>, spare: seq<byte>, pos: nat)
    ensures var r := Skip(data, spare, pos);
            r.At? ==> r.pos <= if pos < |data| then |data| + MAX_OVERSHOOT else pos
    decreases Remaining(data, pos), 0
  {
    if pos < |data| {
      var a := ReadArgument(data, spare, pos + 1, data[pos] % 32, 0);
      if a.Some? && data[pos] / 32 == 4 {
        SkipManyBounded(data, spare, a.value.pos, a.value.n);
      } else if a.Some? && data[pos] / 32 == 5 {
        SkipManyBounded(data, spare, a.value.pos, 2 * a.value.n);
      }
    }
  }

  lemma {:induction false} SkipManyBounded(data: seq<byte>, spare: seq<byte>, pos: nat, count: nat)
    ensures var r := SkipMany(data, spare, pos, count);
            r.At? ==> r.pos <= if pos < |data| then |data| + MAX_OVERSHOOT else pos
    decreases Remaining(data, pos), count
  {
    if count > 0 {
      SkipBounded(data, spare, pos);
      var r := Skip(data, spare, pos);
      if r.At? {
        SkipManyBounded(data, spare, r.pos, count - 1);
      }
    }
  }
}
