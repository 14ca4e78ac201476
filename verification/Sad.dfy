/** Signature activation data: internal/service/sad.go. A task "sign:<hex>,<hex>,..."
    binds a session to the hashes it lists. */
module Sad {
  import opened Bytes

  const PREFIX := "sign:"

  // ---------- strings ----------

  /** `strings.Split(s, ",")`. */
  function Split(s: string): (parts: seq<string>)
    ensures |parts| >= 1
    ensures forall p | p in parts :: ',' !in p
  {
    if s == "" then [""]
    else
      var rest := Split(s[1..]);
      if s[0] == ',' then [""] + rest else [[s[0]] + rest[0]] + rest[1..]
  }

  function Intercalate(parts: seq<string>): string
    requires |parts| >= 1
  {
    if |parts| == 1 then parts[0] else parts[0] + "," + Intercalate(parts[1..])
  }

  /** `unicode.IsSpace`. */
  predicate IsSpace(c: char) {
    '\t' <= c <= '\r' || c == ' ' || c == '\U{0085}' || c == '\U{00A0}' || c == '\U{1680}'
    || '\U{2000}' <= c <= '\U{200a}' || c == '\U{2028}' || c == '\U{2029}' || c == '\U{202f}'
    || c == '\U{205f}' || c == '\U{3000}'
  }

  /** `strings.TrimSpace`. */
  function TrimSpace(s: string): string {
    if s != "" && IsSpace(s[0]) then TrimSpace(s[1..])
    else if s != "" && IsSpace(s[|s| - 1]) then TrimSpace(s[..|s| - 1])
    else s
  }

  // ---------- hexadecimal ----------

  function Nibble(c: char): Option<nat> {
    if '0' <= c <= '9' then Some((c - '0') as nat)
    else if 'a' <= c <= 'f' then Some(10 + (c - 'a') as nat)
    else if 'A' <= c <= 'F' then Some(10 + (c - 'A') as nat)
    else None
  }

  /** `hex.DecodeString`. */
  function DecodeHex(s: string): Option<seq<byte>> {
    if s == "" then Some([])
    else if |s| == 1 then None
    else
      var hi, lo := Nibble(s[0]), Nibble(s[1]);
      var rest := DecodeHex(s[2..]);
      if hi.Some? && lo.Some? && hi.value < 16 && lo.value < 16 && rest.Some?
      then Some([16 * hi.value + lo.value] + rest.value)
      else None
  }

  function HexDigit(n: nat): char
    requires n < 16
  {
    if n < 10 then '0' + n as char else 'a' + (n - 10) as char
  }

  function EncodeHex(bytes: seq<byte>): string {
    if bytes == [] then "" else [HexDigit(bytes[0] / 16), HexDigit(bytes[0] % 16)] + EncodeHex(bytes[1..])
  }

  // ---------- parsing a task ----------

  /** SHA-256, SHA-384 and SHA-512 sizes. */
  predicate HashLength(n: nat) {
    n == 32 || n == 48 || n == 64
  }

  /** The hash a list element stands for, if any. */
  function HashOf(part: string): Option<seq<byte>> {
    var h := DecodeHex(TrimSpace(part));
    if h.Some? && HashLength(|h.value|) then h else None
  }

  /** The hashes of the elements that have one, in order. */
  function HashesOf(parts: seq<string>): (hashes: seq<seq<byte>>)
    ensures forall h | h in hashes :: HashLength(|h|)
  {
    if parts == [] then []
    else
      var init := HashesOf(parts[..|parts| - 1]);
      var h := HashOf(parts[|parts| - 1]);
      if h.Some? then init + [h.value] else init
  }

  /** The hashes a task authorizes; none when it is not a signing task. */
  function Authorized(task: string): seq<seq<byte>> {
    if PREFIX <= task then HashesOf(Split(task[|PREFIX|..])) else []
  }

  /** `ParseSADTask`, where the empty list is Go's nil. */
  method ParseSADTask(task: string) returns (hashes: seq<seq<byte>>)
    ensures hashes == Authorized(task)
  {
    hashes := [];
    if !(PREFIX <= task) {
      return;
    }
    var hashList := task[|PREFIX|..];
    if hashList == "" {
      assert HashesOf([""]) == HashesOf([]) by { assert [""][..0] == []; }
      return;
    }
    var parts := Split(hashList);
    for i := 0 to |parts|
      invariant hashes == HashesOf(parts[..i])
    {
      assert parts[..i + 1][..i] == parts[..i];
      var p := TrimSpace(parts[i]);
      if p == "" {
        continue;
      }
      var h := DecodeHex(p);
      if h.None? {
        continue;
      }
      if |h.value| == 32 || |h.value| == 48 || |h.value| == 64 {
        hashes := hashes + [h.value];
      }
    }
    assert parts[..|parts|] == parts;
  }

  // ---------- the check before signing ----------

  /** Whether a task allows signing a hash: the hash or its SHA-256 is listed, or the
      task lists nothing. */
  predicate Allows(sha256: seq<byte> -> seq<byte>, task: string, hash: seq<byte>) {
    var listed := Authorized(task);
    listed == [] || hash in listed || (|sha256(hash)| == 32 && sha256(hash) in listed)
  }

  function Pow2(bits: nat): nat {
    if bits == 0 then 1 else 2 * Pow2(bits - 1)
  }

  /** Exclusive or of the low bits, bit by bit. */
  function XorBits(a: nat, b: nat, bits: nat): (r: nat)
    ensures r < Pow2(bits)
  {
    if bits == 0 then 0 else 2 * XorBits(a / 2, b / 2, bits - 1) + (a + b) % 2
  }

  /** Inclusive or of the low bits, bit by bit. */
  function OrBits(a: nat, b: nat, bits: nat): (r: nat)
    ensures r < Pow2(bits)
  {
    if bits == 0 then 0 else 2 * OrBits(a / 2, b / 2, bits - 1) + (if a % 2 == 1 || b % 2 == 1 then 1 else 0)
  }

  lemma {:induction false} XorZero(a: nat, b: nat, bits: nat)
    requires a < Pow2(bits) && b < Pow2(bits)
    ensures XorBits(a, b, bits) == 0 <==> a == b
  {
    if bits > 0 {
      XorZero(a / 2, b / 2, bits - 1);
    }
  }

  lemma {:induction false} OrZero(a: nat, b: nat, bits: nat)
    requires a < Pow2(bits) && b < Pow2(bits)
    ensures OrBits(a, b, bits) == 0 <==> a == 0 && b == 0
  {
    if bits > 0 {
      OrZero(a / 2, b / 2, bits - 1);
    }
  }

  lemma ByteIsEightBits()
    ensures Pow2(8) == 256
  {
    assert Pow2(2) == 4;
    assert Pow2(4) == 4 * Pow2(2);
    assert Pow2(6) == 4 * Pow2(4);
    assert Pow2(8) == 4 * Pow2(6);
  }

  /** XOR every pair of bytes, OR the differences together. */
  method BytesEqualConstant(a: seq<byte>, b: seq<byte>) returns (equal: bool)
    ensures equal <==> a == b
  {
    if |a| != |b| {
      return false;
    }
    ByteIsEightBits();
    hide Pow2, XorBits, OrBits;
    var result := 0;
    for i := 0 to |a|
      invariant 0 <= result < Pow2(8)
      invariant result == 0 <==> a[..i] == b[..i]
    {
      assert a[..i + 1] == a[..i] + [a[i]] && b[..i + 1] == b[..i] + [b[i]];
      var difference := XorBits(a[i], b[i], 8);
      XorZero(a[i], b[i], 8);
      OrZero(result, difference, 8);
      result := OrBits(result, difference, 8);
    }
    assert a[..|a|] == a && b[..|b|] == b;
    return result == 0;
  }

  method ValidateSAD(sha256: seq<byte> -> seq<byte>, task: string, hash: seq<byte>) returns (ok: bool)
    requires forall m :: |sha256(m)| == 32
    ensures ok <==> Allows(sha256, task, hash)
  {
    hide Authorized;
    var authorized := ParseSADTask(task);
    if authorized == [] {
      return true;
    }
    for i := 0 to |authorized|
      invariant hash !in authorized[..i]
    {
      var same := BytesEqualConstant(authorized[i], hash);
      if same {
        return true;
      }
    }
    assert authorized[..|authorized|] == authorized;
    var commitment := sha256(hash);
    for i := 0 to |authorized|
      invariant commitment !in authorized[..i]
    {
      if |authorized[i]| == 32 {
        var same := BytesEqualConstant(authorized[i], commitment);
        if same {
          return true;
        }
      }
    }
    return false;
  }

  // ---------- parsing undoes printing ----------

  /** The task that binds a session to a list of hashes. */
  function PrintTask(hashes: seq<seq<byte>>): string
    requires |hashes| >= 1
  {
    PREFIX + Intercalate(EncodeAll(hashes))
  }

  function EncodeAll(hashes: seq<seq<byte>>): (parts: seq<string>)
    ensures |parts| == |hashes|
  {
    if hashes == [] then [] else EncodeAll(hashes[..|hashes| - 1]) + [EncodeHex(hashes[|hashes| - 1])]
  }

  lemma SplitPlain(s: string)
    requires ',' !in s
    ensures Split(s) == [s]
  {
    if s != "" {
      SplitPlain(s[1..]);
      assert [s[0]] + s[1..] == s;
    }
  }

  lemma SplitFirst(s: string, rest: string)
    requires ',' !in s
    ensures Split(s + "," + rest) == [s] + Split(rest)
    decreases |s|
  {
    var whole := s + "," + rest;
    if s == "" {
      assert whole[1..] == rest;
    } else {
      assert whole[1..] == s[1..] + "," + rest;
      SplitFirst(s[1..], rest);
      assert [s[0]] + s[1..] == s;
      assert ([s[1..]] + Split(rest))[1..] == Split(rest);
    }
  }

  lemma {:induction false} SplitIntercalate(parts: seq<string>)
    requires |parts| >= 1 && forall p | p in parts :: ',' !in p
    ensures Split(Intercalate(parts)) == parts
    decreases |parts|
  {
    if |parts| == 1 {
      SplitPlain(parts[0]);
    } else {
      SplitFirst(parts[0], Intercalate(parts[1..]));
      SplitIntercalate(parts[1..]);
    }
  }

  lemma NibbleOfDigit(n: nat)
    requires n < 16
    ensures Nibble(HexDigit(n)) == Some(n) && HexDigit(n) != ',' && !IsSpace(HexDigit(n))
  {
  }

  lemma {:induction false} HexRoundTrip(bytes: seq<byte>)
    ensures DecodeHex(EncodeHex(bytes)) == Some(bytes)
    ensures forall c | c in EncodeHex(bytes) :: c != ',' && !IsSpace(c)
    decreases |bytes|
  {
    if bytes != [] {
      NibbleOfDigit(bytes[0] / 16);
      NibbleOfDigit(bytes[0] % 16);
      HexRoundTrip(bytes[1..]);
      var s := EncodeHex(bytes);
      assert s[0] == HexDigit(bytes[0] / 16) && s[1] == HexDigit(bytes[0] % 16);
      assert s[2..] == EncodeHex(bytes[1..]);
      assert bytes == [bytes[0]] + bytes[1..];
      hide Nibble, HexDigit, IsSpace;
    }
  }

  lemma HashOfEncoded(hash: seq<byte>)
    requires HashLength(|hash|)
    ensures HashOf(EncodeHex(hash)) == Some(hash) && ',' !in EncodeHex(hash)
  {
    hide EncodeHex, DecodeHex, IsSpace;
    HexRoundTrip(hash);
  }

  lemma {:induction false} HashesOfEncoded(hashes: seq<seq<byte>>)
    requires forall h | h in hashes :: HashLength(|h|)
    ensures HashesOf(EncodeAll(hashes)) == hashes
    ensures forall p | p in EncodeAll(hashes) :: ',' !in p
    decreases |hashes|
  {
    hide EncodeHex, HashOf, HashLength;
    if hashes != [] {
      var n := |hashes| - 1;
      HashesOfEncoded(hashes[..n]);
      HashOfEncoded(hashes[n]);
      assert EncodeAll(hashes)[..n] == EncodeAll(hashes[..n]);
    }
  }

  /** Parsing the task printed for any non-empty list of hashes of the three sizes
      gives back that list. */
  lemma ParsePrintedTask(hashes: seq<seq<byte>>)
    requires |hashes| >= 1 && forall h | h in hashes :: HashLength(|h|)
    ensures Authorized(PrintTask(hashes)) == hashes
  {
    HashesOfEncoded(hashes);
    SplitIntercalate(EncodeAll(hashes));
    assert PrintTask(hashes)[|PREFIX|..] == Intercalate(EncodeAll(hashes));
  }

  // ---------- what a task lists ----------

  ghost predicate Blank(s: string) {
    forall c | c in s :: IsSpace(c)
  }

  /** The text begins and ends with something other than white space, or is empty. */
  predicate Bare(s: string) {
    s != "" ==> !IsSpace(s[0]) && !IsSpace(s[|s| - 1])
  }

  /** White space in front, or behind text that does not begin with any, goes first. */
  lemma TrimOne(s: string)
    requires s != ""
    ensures IsSpace(s[0]) ==> TrimSpace(s) == TrimSpace(s[1..])
    ensures !IsSpace(s[0]) && IsSpace(s[|s| - 1]) ==> TrimSpace(s) == TrimSpace(s[..|s| - 1])
    ensures !IsSpace(s[0]) && !IsSpace(s[|s| - 1]) ==> TrimSpace(s) == s
  {
  }

  lemma {:induction false} TrimFront(before: string, s: string)
    requires Blank(before)
    ensures TrimSpace(before + s) == TrimSpace(s)
    decreases |before|
  {
    hide IsSpace, TrimSpace;
    if before == "" {
      assert before + s == s;
    } else {
      TrimOne(before + s);
      assert (before + s)[1..] == before[1..] + s;
      TrimFront(before[1..], s);
    }
  }

  lemma {:induction false} TrimBack(text: string, after: string)
    requires Blank(after) && Bare(text) && text != ""
    ensures TrimSpace(text + after) == text
    decreases |after|
  {
    hide IsSpace, TrimSpace;
    var s := text + after;
    TrimOne(s);
    if after == "" {
      assert s == text;
    } else {
      assert s[..|s| - 1] == text + after[..|after| - 1];
      TrimBack(text, after[..|after| - 1]);
    }
  }

  /** Trimming removes all white space around the text and nothing else. */
  lemma Trimmed(before: string, text: string, after: string)
    requires Blank(before) && Blank(after) && Bare(text)
    ensures TrimSpace(before + text + after) == text
  {
    hide IsSpace, TrimSpace;
    assert before + text + after == before + (text + after);
    TrimFront(before, text + after);
    if text == "" {
      assert text + after == after + "";
      TrimFront(after, "");
      TrimEmpty();
    } else {
      TrimBack(text, after);
    }
  }

  lemma TrimEmpty()
    ensures TrimSpace("") == ""
  {
  }

  /** Every string is a bare text between white space. */
  lemma {:induction false} TrimSplits(s: string) returns (before: string, after: string)
    ensures Blank(before) && Blank(after) && Bare(TrimSpace(s)) && s == before + TrimSpace(s) + after
    decreases |s|
  {
    hide IsSpace;
    before, after := "", "";
    if s != "" && IsSpace(s[0]) {
      var rest;
      rest, after := TrimSplits(s[1..]);
      before := [s[0]] + rest;
    } else if s != "" && IsSpace(s[|s| - 1]) {
      var rest;
      before, rest := TrimSplits(s[..|s| - 1]);
      after := rest + [s[|s| - 1]];
    }
  }

  function LowerCase(c: char): char {
    if 'A' <= c <= 'F' then 'a' + (c - 'A') else c
  }

  /** Hexadecimal digits in lower case. */
  function Lower(s: string): string {
    seq(|s|, i requires 0 <= i < |s| => LowerCase(s[i]))
  }

  lemma NibbleIff(c: char, n: nat)
    requires n < 16
    ensures Nibble(c) == Some(n) <==> LowerCase(c) == HexDigit(n)
  {
  }

  lemma LowerFirst(s: string)
    requires |s| >= 2
    ensures Lower(s) == [LowerCase(s[0]), LowerCase(s[1])] + Lower(s[2..])
  {
    hide LowerCase;
  }

  /** A string decodes to these bytes exactly when, but for its case, it is their
      encoding. */
  lemma {:induction false} DecodesIff(s: string, bytes: seq<byte>)
    ensures DecodeHex(s) == Some(bytes) <==> Lower(s) == EncodeHex(bytes)
    decreases |s|, 1
  {
    if |s| >= 2 && bytes != [] {
      DecodesMore(s, bytes);
    }
  }

  lemma {:induction false} DecodesMore(s: string, bytes: seq<byte>)
    requires |s| >= 2 && bytes != []
    ensures DecodeHex(s) == Some(bytes) <==> Lower(s) == EncodeHex(bytes)
    decreases |s|, 0
  {
    hide Nibble, HexDigit, LowerCase, Lower;
    DecodesIff(s[2..], bytes[1..]);
    NibbleIff(s[0], bytes[0] / 16);
    NibbleIff(s[1], bytes[0] % 16);
    LowerFirst(s);
    var digits := [HexDigit(bytes[0] / 16), HexDigit(bytes[0] % 16)];
    var rest := EncodeHex(bytes[1..]);
    assert EncodeHex(bytes) == digits + rest;
    assert (digits + rest)[2..] == rest && Lower(s)[2..] == Lower(s[2..]);
    assert Lower(s) == digits + rest <==>
      Lower(s[2..]) == rest && LowerCase(s[0]) == digits[0] && LowerCase(s[1]) == digits[1] by {
      if Lower(s) == digits + rest {
        assert Lower(s)[0] == digits[0] && Lower(s)[1] == digits[1];
      }
    }
    DecodeFirst(s, bytes);
  }

  lemma DecodeFirst(s: string, bytes: seq<byte>)
    requires |s| >= 2 && bytes != []
    ensures DecodeHex(s) == Some(bytes) <==>
              && Nibble(s[0]) == Some(bytes[0] / 16) && Nibble(s[1]) == Some(bytes[0] % 16)
              && DecodeHex(s[2..]) == Some(bytes[1..])
  {
    hide Nibble;
    var rest := DecodeHex(s[2..]);
    if rest.Some? {
      assert forall b: byte :: ([b] + rest.value)[1..] == rest.value;
    }
    assert bytes == [bytes[0]] + bytes[1..];
  }

  /** The element, between white space and in either case, is the encoding of a hash of
      32, 48 or 64 bytes. */
  ghost predicate Spells(part: string, hash: seq<byte>) {
    && |hash| in {32, 48, 64}
    && exists before: string, text: string, after: string :: Around(part, before, text, after, hash)
  }

  ghost predicate Around(part: string, before: string, text: string, after: string, hash: seq<byte>) {
    part == before + text + after && Blank(before) && Blank(after) && Lower(text) == EncodeHex(hash)
  }

  lemma LowerIsBare(text: string, hash: seq<byte>)
    requires Lower(text) == EncodeHex(hash)
    ensures Bare(text)
  {
    HexRoundTrip(hash);
    var low := Lower(text);
    hide EncodeHex, DecodeHex;
    if text != "" {
      assert low[0] in low && low[|text| - 1] in low;
    }
  }

  lemma SpellsIff(part: string, hash: seq<byte>)
    ensures HashOf(part) == Some(hash) <==> Spells(part, hash)
  {
    hide DecodeHex, EncodeHex, TrimSpace, IsSpace, Blank;
    var before, after := TrimSplits(part);
    DecodesIff(TrimSpace(part), hash);
    if HashOf(part) == Some(hash) {
      assert Around(part, before, TrimSpace(part), after, hash);
    }
    if b, text, a :| Around(part, b, text, a, hash) && |hash| in {32, 48, 64} {
      LowerIsBare(text, hash);
      Trimmed(b, text, a);
    }
  }

  lemma {:induction false} InHashesOf(parts: seq<string>, hash: seq<byte>)
    ensures hash in HashesOf(parts) <==> exists k: nat | k < |parts| :: HashOf(parts[k]) == Some(hash)
    decreases |parts|
  {
    hide HashOf;
    if parts != [] {
      var n := |parts| - 1;
      InHashesOf(parts[..n], hash);
      if k: nat :| k < |parts| && HashOf(parts[k]) == Some(hash) {
        assert k < n ==> HashOf(parts[..n][k]) == Some(hash);
      }
    }
  }

  lemma {:induction false} JoinSplit(s: string)
    ensures Intercalate(Split(s)) == s
    decreases |s|
  {
    if s != "" {
      JoinSplit(s[1..]);
      var rest := Split(s[1..]);
      if s[0] == ',' {
        assert ([""] + rest)[1..] == rest;
      } else {
        assert ([[s[0]] + rest[0]] + rest[1..])[1..] == rest[1..];
      }
    }
  }

  /** The task is a comma-separated list after "sign:", with an element for the hash. */
  ghost predicate ListedIn(task: string, parts: seq<string>, hash: seq<byte>) {
    && |parts| >= 1 && (forall p | p in parts :: ',' !in p)
    && task == "sign:" + Intercalate(parts)
    && exists k: nat | k < |parts| :: Spells(parts[k], hash)
  }

  ghost predicate Lists(task: string, hash: seq<byte>) {
    exists parts :: ListedIn(task, parts, hash)
  }

  /** Main result: the parser finds in any task exactly the hashes that it lists. */
  lemma ListsIff(task: string, hash: seq<byte>)
    ensures hash in Authorized(task) <==> Lists(task, hash)
  {
    hide HashesOf, HashOf, Spells;
    forall part { SpellsIff(part, hash); }
    if PREFIX <= task {
      var parts := Split(task[|PREFIX|..]);
      JoinSplit(task[|PREFIX|..]);
      InHashesOf(parts, hash);
      if hash in Authorized(task) {
        assert task == "sign:" + Intercalate(parts);
        assert ListedIn(task, parts, hash);
      }
    }
    if parts :| ListedIn(task, parts, hash) {
      assert task[|PREFIX|..] == Intercalate(parts);
      SplitIntercalate(parts);
      InHashesOf(parts, hash);
    }
  }

  /** Main result: a hash may be signed exactly when the task lists it, or its SHA-256, or
      lists nothing. */
  lemma AllowsIff(sha256: seq<byte> -> seq<byte>, task: string, hash: seq<byte>)
    ensures Allows(sha256, task, hash) <==>
              || Lists(task, hash) || (|sha256(hash)| == 32 && Lists(task, sha256(hash)))
              || forall h :: !Lists(task, h)
  {
    hide Authorized, Lists;
    forall h { ListsIff(task, h); }
    if Authorized(task) != [] {
      assert Authorized(task)[0] in Authorized(task);
    }
  }
}
