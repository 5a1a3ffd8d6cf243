/**
  Packets of the GDB stub (kernel/gdb_serial.c): the run-length and hexadecimal encoder of putfrags for one hexified
  fragment, the framing loop of getpacket, hex2bin, and the removal of quotes for the X command.
  Characters are their codes, 0..255.
 */
module GdbPacket {

  const HASH: int := 0x23
  const DOLLAR: int := 0x24
  const STAR: int := 0x2a
  const QUOTE: int := 0x7d

  predicate IsByte(b: int) { 0 <= b < 256 }

  predicate Bytes(s: seq<int>) { forall i :: 0 <= i < |s| ==> IsByte(s[i]) }

  // ---- hexadecimal digits ----

  function HexChar(d: int): (c: int)
    requires 0 <= d < 16
    ensures 0x30 <= c <= 0x39 || 0x61 <= c <= 0x66
    ensures Hex(c) == d
  {
    if d < 10 then 0x30 + d else 0x61 + d - 10
  }

  function Hex(c: int): (d: int)
    ensures -1 <= d < 16
  {
    if 0x30 <= c <= 0x39 then c - 0x30
    else if 0x61 <= c <= 0x66 then c - 0x61 + 10
    else if 0x41 <= c <= 0x46 then c - 0x41 + 10
    else -1
  }

  /** The other case of a letter, by its code. */
  function OtherCase(c: int): int {
    if 0x61 <= c <= 0x7a then c - 0x20 else if 0x41 <= c <= 0x5a then c + 0x20 else c
  }

  /** Every digit is one of the sixteen that are sent, or such a one in upper case. */
  lemma HexDigits(c: int)
    ensures Hex(OtherCase(c)) == Hex(c)
    ensures Hex(c) >= 0 <==> exists d {:trigger HexChar(d)} :: 0 <= d < 16 && (c == HexChar(d) || c == OtherCase(HexChar(d)))
  {
    if Hex(c) >= 0 { assert c == HexChar(Hex(c)) || c == OtherCase(HexChar(Hex(c))); }
    if d :| 0 <= d < 16 && (c == HexChar(d) || c == OtherCase(HexChar(d))) { assert Hex(HexChar(d)) == d; }
  }

  /** Two digits as hex2bin combines them: a bad digit is -1, and or-ing it in leaves a negative number. */
  function HexPair(a: int, b: int): (v: int)
    ensures v < 0 <==> Hex(a) < 0 || Hex(b) < 0
    ensures v >= 0 ==> IsByte(v)
  {
    if Hex(a) < 0 || Hex(b) < 0 then -1 else 16 * Hex(a) + Hex(b)
  }

  /** A byte string in plain hexadecimal. */
  function Hexified(data: seq<int>): (s: seq<int>)
    requires Bytes(data)
    ensures |s| == 2 * |data|
  {
    if data == [] then [] else [HexChar(data[0] / 16), HexChar(data[0] % 16)] + Hexified(data[1..])
  }

  lemma {:induction false} HexifiedAt(data: seq<int>, i: nat)
    requires Bytes(data) && i < |data|
    ensures Hexified(data)[2 * i] == HexChar(data[i] / 16)
    ensures Hexified(data)[2 * i + 1] == HexChar(data[i] % 16)
  {
    if i > 0 { HexifiedAt(data[1..], i - 1); }
  }

  lemma HexifiedOne(b: int)
    requires IsByte(b)
    ensures Bytes([b]) && Hexified([b]) == [HexChar(b / 16), HexChar(b % 16)]
  {
    assert [b][1..] == [];
  }

  lemma {:induction false} HexifiedAppend(a: seq<int>, b: seq<int>)
    requires Bytes(a) && Bytes(b)
    ensures Bytes(a + b) && Hexified(a + b) == Hexified(a) + Hexified(b)
  {
    if a == [] {
      assert a + b == b;
    } else {
      HexifiedAppend(a[1..], b);
      assert (a + b)[1..] == a[1..] + b;
    }
  }

  // ---- the encoder ----

  function Repeat(c: int, n: nat): (s: seq<int>)
    ensures |s| == n && forall i :: 0 <= i < n ==> s[i] == c
  {
    seq(n, _ => c)
  }

  /** End of the run of equal bytes that starts at p, from q on and at most up to limit. */
  function RunEnd(data: seq<int>, p: nat, q: nat, limit: nat): (e: nat)
    requires p < q <= limit <= |data|
    ensures q <= e <= limit
    ensures forall i :: q <= i < e ==> data[i] == data[p]
    ensures e == limit || data[e] != data[p]
    decreases limit - q
  {
    if q < limit && data[q] == data[p] then RunEnd(data, p, q + 1, limit) else q
  }

  /** A run starts at p: two equal bytes whose two digits are equal. */
  predicate RunAt(data: seq<int>, p: nat) {
    p + 1 < |data| && data[p + 1] == data[p] && data[p] / 16 == data[p] % 16
  }

  function Limit(data: seq<int>, p: nat): nat {
    if p + 49 > |data| then |data| else p + 49
  }

  /** Count character for n bytes, that is 2 * n digits, of which one is sent. */
  function CountCode(n: nat): int { 29 + 2 * n - 1 }

  /** Where the encoder goes on after the token at p, and the characters of that token. */
  function Next(data: seq<int>, p: nat): (q: nat)
    requires p < |data|
    ensures p < q <= |data|
  {
    if RunAt(data, p) then RunEnd(data, p, p + 2, Limit(data, p)) else p + 1
  }

  function Token(data: seq<int>, p: nat): (t: seq<int>)
    requires Bytes(data) && p < |data|
  {
    assert IsByte(data[p]);
    if RunAt(data, p) then [HexChar(data[p] % 16), STAR, CountCode(Next(data, p) - p)]
    else [HexChar(data[p] / 16), HexChar(data[p] % 16)]
  }

  /** The characters putfrags sends between '$' and '#' for the bytes from p on. */
  function Payload(data: seq<int>, p: nat): (s: seq<int>)
    requires Bytes(data) && p <= |data|
    decreases |data| - p
  {
    if p == |data| then [] else Token(data, p) + Payload(data, Next(data, p))
  }

  function Sum(s: seq<int>): int {
    if s == [] then 0 else Sum(s[..|s| - 1]) + s[|s| - 1]
  }

  lemma SumSnoc(s: seq<int>, c: int)
    ensures Sum(s + [c]) == Sum(s) + c
  {
    assert (s + [c])[..|s|] == s;
  }

  /** Everything between '$' and '#', in the way the checksum sees it, and the whole packet. */
  function Packet(data: seq<int>): seq<int>
    requires Bytes(data)
  {
    var body := Payload(data, 0);
    [DOLLAR] + body + [HASH, HexChar(Sum(body) % 256 / 16), HexChar(Sum(body) % 256 % 16)]
  }

  /** The line to the debugger: characters sent and the running 8-bit checksum. */
  class Sender {
    var sent: seq<int>
    var checksum: int
    ghost var start: nat

    ghost predicate Valid()
      reads this
    {
      start <= |sent| && checksum == Sum(sent[start..]) % 256
    }

    constructor ()
      ensures Valid() && sent == []
    {
      sent, checksum, start := [], 0, 0;
    }

    /** gdb_serial_send('$') with the checksum reset. */
    method Open()
      modifies this
      ensures Valid() && start == |sent| && sent == old(sent) + [DOLLAR]
    {
      sent := sent + [DOLLAR];
      checksum, start := 0, |sent|;
    }

    /** The SEND macro. */
    method Send(c: int)
      requires Valid()
      modifies this
      ensures Valid() && sent == old(sent) + [c] && start == old(start)
    {
      SumSnoc(sent[start..], c);
      assert (sent + [c])[start..] == sent[start..] + [c];
      sent := sent + [c];
      checksum := (checksum + c) % 256;
    }

    /** The scan for the end of a run. */
    method ScanRun(data: seq<int>, p: nat) returns (q: nat)
      requires RunAt(data, p)
      ensures q == Next(data, p)
    {
      q := p + 2;
      while q < Limit(data, p) && data[q] == data[p]
        invariant p + 2 <= q <= Limit(data, p)
        invariant RunEnd(data, p, q, Limit(data, p)) == Next(data, p)
      {
        q := q + 1;
      }
    }

    method SendRun(data: seq<int>, p: nat) returns (q: nat)
      requires Valid() && Bytes(data) && p < |data| && RunAt(data, p)
      modifies this
      ensures Valid() && start == old(start)
      ensures q == Next(data, p) && sent == old(sent) + Token(data, p)
    {
      assert IsByte(data[p]);
      q := ScanRun(data, p);
      Send(HexChar(data[p] % 16));
      Send(STAR);
      Send(CountCode(q - p));
    }

    method SendByte(data: seq<int>, p: nat) returns (q: nat)
      requires Valid() && Bytes(data) && p < |data| && !RunAt(data, p)
      modifies this
      ensures Valid() && start == old(start)
      ensures q == Next(data, p) && sent == old(sent) + Token(data, p)
    {
      assert IsByte(data[p]);
      Send(HexChar(data[p] / 16));
      Send(HexChar(data[p] % 16));
      q := p + 1;
    }

    /** putfrags, one turn of its outer loop, for a single hexified fragment. */
    method PutFragment(data: seq<int>)
      requires Bytes(data) && data != []
      modifies this
      ensures sent == old(sent) + Packet(data)
    {
      Open();
      ghost var begun := sent;
      var p := 0;
      while p < |data|
        invariant p <= |data| && Valid() && start == |begun| <= |sent|
        invariant sent + Payload(data, p) == begun + Payload(data, 0)
      {
        ghost var before := sent;
        ghost var token, rest := Token(data, p), Payload(data, Next(data, p));
        if RunAt(data, p) {
          p := SendRun(data, p);
        } else {
          p := SendByte(data, p);
        }
        assert before + (token + rest) == (before + token) + rest;
      }
      assert sent == begun + Payload(data, 0);
      assert sent[start..] == Payload(data, 0);
      sent := sent + [HASH, HexChar(checksum / 16), HexChar(checksum % 16)];
    }
  }

  // ---- what goes over the line ----

  /** Characters a payload may hold: digits, the star, and counts, which are even and printable. */
  predicate Plain(c: int) {
    0x30 <= c <= 0x39 || 0x61 <= c <= 0x66 || (32 <= c <= 126 && c % 2 == 0)
  }

  lemma CountIsPrintable(data: seq<int>, p: nat, q: nat)
    requires RunAt(data, p) && q == Next(data, p)
    ensures 2 <= q - p <= 49
    ensures 32 <= CountCode(q - p) <= 126 && CountCode(q - p) % 2 == 0
  {
  }

  lemma TokenIsPlain(data: seq<int>, p: nat, i: nat)
    requires Bytes(data) && p < |data| && i < |Token(data, p)|
    ensures Plain(Token(data, p)[i]) && Token(data, p)[i] != HASH && Token(data, p)[i] != QUOTE
    ensures |Token(data, p)| <= 2 * (Next(data, p) - p)
  {
    if RunAt(data, p) { CountIsPrintable(data, p, Next(data, p)); }
  }

  lemma {:induction false} PayloadIsPlain(data: seq<int>, p: nat, i: nat)
    requires Bytes(data) && p <= |data| && i < |Payload(data, p)|
    ensures Plain(Payload(data, p)[i])
    ensures Payload(data, p)[i] != HASH && Payload(data, p)[i] != QUOTE
    decreases |data| - p
  {
    var n := |Token(data, p)|;
    if i < n {
      TokenIsPlain(data, p, i);
    } else {
      PayloadIsPlain(data, Next(data, p), i - n);
    }
  }

  /** The encoding is never longer than plain hexadecimal. */
  lemma {:induction false} PayloadIsShort(data: seq<int>, p: nat)
    requires Bytes(data) && p <= |data|
    ensures |Payload(data, p)| <= 2 * (|data| - p)
    decreases |data| - p
  {
    if p < |data| {
      TokenIsPlain(data, p, 0);
      PayloadIsShort(data, Next(data, p));
    }
  }

  /** Section E.1 of the protocol also bars '$' as a count: putfrags sends it exactly for runs of four bytes. */
  lemma DollarCount(data: seq<int>, p: nat)
    requires Bytes(data) && p < |data|
    ensures DOLLAR in Token(data, p) <==> RunAt(data, p) && Next(data, p) == p + 4
  {
    assert IsByte(data[p]);
    if RunAt(data, p) { assert Token(data, p)[2] == CountCode(Next(data, p) - p); }
  }

  lemma FourZeroesSendDollar()
    ensures Payload([0, 0, 0, 0], 0) == [0x30, STAR, DOLLAR]
  {
    var data := [0, 0, 0, 0];
    assert RunAt(data, 0) && Limit(data, 0) == 4;
    assert Next(data, 0) == 4;
    assert Token(data, 0) == [0x30, STAR, DOLLAR];
    assert Payload(data, 4) == [];
  }

  // ---- the receiver ----

  /** Run-length expansion: a star repeats the last character by the count minus 29. */
  function Expand(out: seq<int>, s: seq<int>): seq<int>
    decreases |s|
  {
    if s == [] then out
    else if s[0] == STAR && |s| >= 2 && out != [] && s[1] >= 29 then
      Expand(out + Repeat(out[|out| - 1], s[1] - 29), s[2..])
    else Expand(out + [s[0]], s[1..])
  }

  lemma ExpandTwo(out: seq<int>, a: int, b: int, rest: seq<int>)
    requires a != STAR && b != STAR
    ensures Expand(out, [a, b] + rest) == Expand(out + [a, b], rest)
  {
    var s := [a, b] + rest;
    assert s[1..] == [b] + rest && s[1..][1..] == rest;
    assert out + [a] + [b] == out + [a, b];
  }

  lemma ExpandRun(out: seq<int>, a: int, n: nat, rest: seq<int>)
    requires a != STAR && n >= 1
    ensures Expand(out, [a, STAR, CountCode(n)] + rest) == Expand(out + Repeat(a, 2 * n), rest)
  {
    var s := [a, STAR, CountCode(n)] + rest;
    var t := s[1..];
    assert t == [STAR, CountCode(n)] + rest && t[2..] == rest;
    var o := out + [a];
    assert o[|o| - 1] == a;
    assert o + Repeat(a, CountCode(n) - 29) == out + Repeat(a, 2 * n);
  }

  /** A run of equal bytes with equal digits is one digit repeated. */
  lemma RunHexified(data: seq<int>, p: nat, q: nat)
    requires Bytes(data) && p < q <= |data| && data[p] / 16 == data[p] % 16
    requires forall i :: p <= i < q ==> data[i] == data[p]
    ensures IsByte(data[p]) && Bytes(data[p..q]) && Hexified(data[p..q]) == Repeat(HexChar(data[p] % 16), 2 * (q - p))
  {
    assert IsByte(data[p]);
    var run := data[p..q];
    assert Bytes(run);
    var c := HexChar(data[p] % 16);
    forall k | 0 <= k < 2 * (q - p) ensures Hexified(run)[k] == c {
      HexifiedAt(run, k / 2);
      assert run[k / 2] == data[p + k / 2] == data[p];
      assert k == 2 * (k / 2) || k == 2 * (k / 2) + 1;
    }
  }

  lemma BytesSlice(data: seq<int>, p: nat, q: nat)
    requires Bytes(data) && p <= q <= |data|
    ensures Bytes(data[p..q]) && Bytes(data[p..])
  {
  }

  lemma TokenExpands(out: seq<int>, data: seq<int>, p: nat, rest: seq<int>)
    requires Bytes(data) && p < |data| && Bytes(data[p..Next(data, p)])
    ensures Expand(out, Token(data, p) + rest) == Expand(out + Hexified(data[p..Next(data, p)]), rest)
  {
    assert IsByte(data[p]);
    var q := Next(data, p);
    if RunAt(data, p) {
      RunHexified(data, p, q);
      ExpandRun(out, HexChar(data[p] % 16), q - p, rest);
    } else {
      ExpandTwo(out, HexChar(data[p] / 16), HexChar(data[p] % 16), rest);
      HexifiedOne(data[p]);
      assert data[p..q] == [data[p]];
    }
  }

  lemma Associate(a: seq<int>, b: seq<int>, c: seq<int>)
    ensures (a + b) + c == a + (b + c)
  {
  }

  /** Expanding the payload gives plain hexadecimal. */
  lemma {:induction false} ExpandPayload(out: seq<int>, data: seq<int>, p: nat)
    requires Bytes(data) && p <= |data|
    ensures Bytes(data[p..]) && Expand(out, Payload(data, p)) == out + Hexified(data[p..])
    decreases |data| - p
  {
    BytesSlice(data, p, p);
    if p < |data| {
      var q := Next(data, p);
      BytesSlice(data, p, q);
      BytesSlice(data, q, q);
      assert data[p..] == data[p..q] + data[q..];
      HexifiedAppend(data[p..q], data[q..]);
      var piece, tail := Hexified(data[p..q]), Hexified(data[q..]);
      TokenExpands(out, data, p, Payload(data, q));
      ExpandPayload(out + piece, data, q);
      Associate(out, piece, tail);
    }
  }

  // ---- hex2bin ----

  /** The leading pairs of text that are hexadecimal, at most n of them. */
  function GoodPairs(text: seq<int>, n: nat): (k: nat)
    requires |text| >= 2 * n
    ensures k <= n
    ensures forall i :: 0 <= i < k ==> HexPair(text[2 * i], text[2 * i + 1]) >= 0
    ensures k < n ==> HexPair(text[2 * k], text[2 * k + 1]) < 0
  {
    if n == 0 || HexPair(text[0], text[1]) < 0 then 0
    else
      var rest := text[2..];
      var k := GoodPairs(rest, n - 1);
      assert forall i :: 0 < i <= k ==> HexPair(text[2 * i], text[2 * i + 1]) == HexPair(rest[2 * (i - 1)], rest[2 * (i - 1) + 1]);
      k + 1
  }

  /** hex2bin: stops at the first bad pair, leaving the bytes already converted. */
  method Hex2Bin(text: seq<int>, out: array<int>, len: nat) returns (status: int)
    requires |text| >= 2 * len && out.Length >= len
    modifies out
    ensures status == if GoodPairs(text, len) == len then 0 else -1
    ensures forall i :: 0 <= i < GoodPairs(text, len) ==> out[i] == HexPair(text[2 * i], text[2 * i + 1])
    ensures forall i :: GoodPairs(text, len) <= i < out.Length ==> out[i] == old(out[i])
  {
    var i := 0;
    while i < len
      invariant 0 <= i <= GoodPairs(text, len)
      invariant forall j :: 0 <= j < i ==> out[j] == HexPair(text[2 * j], text[2 * j + 1])
      invariant forall j :: i <= j < out.Length ==> out[j] == old(out[j])
    {
      var ch := HexPair(text[2 * i], text[2 * i + 1]);
      if ch < 0 {
        return -1;
      }
      out[i] := ch;
      i := i + 1;
    }
    return 0;
  }

  predicate PairIs(text: seq<int>, i: nat, b: int) {
    2 * i + 1 < |text| && HexPair(text[2 * i], text[2 * i + 1]) == b
  }

  lemma HexifiedPair(data: seq<int>, i: nat)
    requires Bytes(data) && i < |data|
    ensures PairIs(Hexified(data), i, data[i]) && data[i] >= 0
  {
    HexifiedAt(data, i);
    assert IsByte(data[i]);
  }

  /** hex2bin accepts every hexified byte string in full. */
  lemma HexifiedIsGood(data: seq<int>)
    requires Bytes(data)
    ensures GoodPairs(Hexified(data), |data|) == |data|
  {
    var k := GoodPairs(Hexified(data), |data|);
    if k < |data| { HexifiedPair(data, k); }
  }

  // ---- getpacket ----

  /** One attempt at a packet; `next` is the first character not consumed. Starved: the line has no more characters yet. */
  datatype Received = Accepted(body: seq<int>, next: nat) | Refused(next: nat) | Starved

  function SkipTo(s: seq<int>, i: nat): (d: nat)
    requires i <= |s|
    ensures i <= d <= |s| && (d == |s| || s[d] % 128 == DOLLAR)
    ensures forall j :: i <= j < d ==> s[j] % 128 != DOLLAR
    decreases |s| - i
  {
    if i == |s| || s[i] % 128 == DOLLAR then i else SkipTo(s, i + 1)
  }

  /** A '#' that is not quoted ends the body. */
  predicate Closes(s: seq<int>, start: nat, j: nat)
    requires start <= j < |s|
  {
    s[j] == HASH && (j == start || s[j - 1] != QUOTE)
  }

  function BodyEnd(s: seq<int>, start: nat, j: nat, bufMax: nat): (e: nat)
    requires start <= j <= |s| && j - start <= bufMax
    ensures j <= e <= |s| && e - start <= bufMax
    ensures e == |s| || e - start == bufMax || Closes(s, start, e)
    ensures forall k :: j <= k < e ==> !Closes(s, start, k)
    decreases |s| - j
  {
    if j == |s| || j - start == bufMax || Closes(s, start, j) then j else BodyEnd(s, start, j + 1, bufMax)
  }

  /** The transmitted checksum, in 8 bits even when a digit is bad. */
  function SentSum(a: int, b: int): int { (16 * Hex(a) + Hex(b)) % 256 }

  /** The checksum comparison. A full buffer without a '#' is compared with 255 and gets no reply. */
  function Settle(s: seq<int>, start: nat, e: nat, sum: int, bufMax: nat): Received
    requires start <= e <= |s| && e - start <= bufMax && bufMax >= 1
    requires e < |s| || e - start == bufMax
  {
    var next := if e - start < bufMax then e + 1 else e;
    var hash := s[next - 1] == HASH;
    if hash && next + 2 > |s| then Starved
    else
      var xmit := if hash then SentSum(s[next], s[next + 1]) else 255;
      var after := if hash then next + 2 else next;
      if sum == xmit then Accepted(s[start..e], after) else Refused(after)
  }

  function Attempt(s: seq<int>, bufMax: nat): Received
    requires bufMax >= 1
  {
    var d := SkipTo(s, 0);
    if d == |s| then Starved
    else
      var e := BodyEnd(s, d + 1, d + 1, bufMax);
      if e == |s| && e - (d + 1) < bufMax then Starved
      else Settle(s, d + 1, e, Sum(s[d + 1..e]) % 256, bufMax)
  }

  /** Sum of the n characters from start on. */
  function SumFrom(s: seq<int>, start: nat, n: nat): int
    requires start + n <= |s|
  {
    if n == 0 then 0 else SumFrom(s, start, n - 1) + s[start + n - 1]
  }

  lemma {:induction false} SumOfSlice(s: seq<int>, start: nat, n: nat)
    requires start + n <= |s|
    ensures SumFrom(s, start, n) == Sum(s[start..start + n])
  {
    if n > 0 {
      SumOfSlice(s, start, n - 1);
      assert s[start..start + n] == s[start..start + n - 1] + [s[start + n - 1]];
      SumSnoc(s[start..start + n - 1], s[start + n - 1]);
    }
  }

  /** The first count characters after start are in the buffer. */
  ghost predicate Buffered(s: seq<int>, start: nat, buffer: array<int>, count: nat)
    reads buffer
    requires start + count <= |s| && count <= buffer.Length
  {
    forall j :: 0 <= j < count ==> buffer[j] == s[start + j]
  }

  /** Reads a body into the buffer. */
  method ReadBody(s: seq<int>, start: nat, buffer: array<int>, bufMax: nat) returns (count: nat, checksum: int)
    requires start <= |s| && buffer.Length == bufMax + 1
    modifies buffer
    ensures start + count == BodyEnd(s, start, start, bufMax)
    ensures Buffered(s, start, buffer, count)
    ensures checksum == SumFrom(s, start, count) % 256
  {
    count, checksum := 0, 0;
    ghost var e := BodyEnd(s, start, start, bufMax);
    while count < bufMax && start + count < |s| && !(s[start + count] == HASH && (count == 0 || buffer[count - 1] != QUOTE))
      invariant start + count <= e
      invariant Buffered(s, start, buffer, count)
      invariant checksum == SumFrom(s, start, count) % 256
    {
      var ch := s[start + count];
      CarryOn(SumFrom(s, start, count), ch);
      checksum := (checksum + ch) % 256;
      buffer[count] := ch;
      count := count + 1;
    }
    assert start + count < |s| && count < bufMax ==> Closes(s, start, start + count);
  }

  lemma CarryOn(sum: int, ch: int)
    ensures (sum % 256 + ch) % 256 == (sum + ch) % 256
  {
  }

  /** Reads a body and ends it with a zero. */
  method FillBuffer(s: seq<int>, start: nat, buffer: array<int>, bufMax: nat) returns (e: nat, checksum: int)
    requires start <= |s| && buffer.Length == bufMax + 1
    modifies buffer
    ensures e == BodyEnd(s, start, start, bufMax)
    ensures buffer[..e - start] == s[start..e] && buffer[e - start] == 0
    ensures checksum == Sum(s[start..e]) % 256
  {
    var count;
    count, checksum := ReadBody(s, start, buffer, bufMax);
    e := start + count;
    buffer[count] := 0;
    assert buffer[..count] == s[start..e];
    SumOfSlice(s, start, count);
  }

  /** Reads the transmitted checksum, if the body ended in a '#', and compares. */
  method CompareSums(s: seq<int>, start: nat, e: nat, checksum: int, bufMax: nat) returns (r: Received)
    requires start <= e <= |s| && e - start <= bufMax && bufMax >= 1
    requires e < |s| || e - start == bufMax
    ensures r == Settle(s, start, e, checksum, bufMax)
    ensures e - start < bufMax && s[e] == HASH && e + 3 <= |s| ==> (r.Accepted? <==> checksum == SentSum(s[e + 1], s[e + 2]))
    ensures e - start == bufMax && s[e - 1] != HASH ==> (r.Accepted? <==> checksum == 255)
    ensures r.Accepted? ==> r.body == s[start..e] && |r.body| == e - start
  {
    var next := if e - start < bufMax then e + 1 else e;
    var xmit := 255;
    if s[next - 1] == HASH {
      if next + 2 > |s| {
        return Starved;
      }
      xmit := SentSum(s[next], s[next + 1]);
      next := next + 2;
    }
    r := if checksum == xmit then Accepted(s[start..e], next) else Refused(next);
  }

  method SkipNoise(s: seq<int>) returns (d: nat)
    ensures d == SkipTo(s, 0)
  {
    d := 0;
    while d < |s| && s[d] % 128 != DOLLAR
      invariant d <= |s| && SkipTo(s, d) == SkipTo(s, 0)
    {
      d := d + 1;
    }
  }

  /** getpacket, one turn of its outer loop: the packet is left in the buffer, ended by a zero. */
  method GetPacket(s: seq<int>, buffer: array<int>, bufMax: nat) returns (r: Received)
    requires bufMax >= 1 && buffer.Length == bufMax + 1
    modifies buffer
    ensures r == Attempt(s, bufMax)
    ensures r.Accepted? ==> |r.body| <= bufMax && buffer[..|r.body|] == r.body && buffer[|r.body|] == 0
  {
    var d := SkipNoise(s);
    if d == |s| {
      return Starved;
    }
    var e, checksum := FillBuffer(s, d + 1, buffer, bufMax);
    if e == |s| && e - (d + 1) < bufMax {
      return Starved;
    }
    r := CompareSums(s, d + 1, e, checksum, bufMax);
  }

  /**
    When an attempt is accepted: a '$' came, the body up to the first unquoted '#' fits, and the two digits after
    it are its checksum. A body that fills the buffer without that '#' is accepted exactly if its sum is 255, or if
    the buffer ends in a quoted '#' that is taken for the end and the checksum after it happens to agree.
   */
  lemma AcceptedWhen(s: seq<int>, bufMax: nat)
    requires bufMax >= 1
    ensures var d := SkipTo(s, 0);
      Attempt(s, bufMax).Accepted? <==>
        && d < |s|
        && var e := BodyEnd(s, d + 1, d + 1, bufMax);
           var sum := Sum(s[d + 1..e]) % 256;
           if e - (d + 1) < bufMax then e + 2 < |s| && sum == SentSum(s[e + 1], s[e + 2])
           else if s[e - 1] == HASH then e + 1 < |s| && sum == SentSum(s[e], s[e + 1])
           else sum == 255
  {
  }

  lemma EndFound(s: seq<int>, start: nat, n: nat, bufMax: nat)
    requires start + n < |s| && n < bufMax && s[start + n] == HASH && (n > 0 ==> s[start + n - 1] != QUOTE)
    requires forall j :: start <= j < start + n ==> s[j] != HASH
    ensures BodyEnd(s, start, start, bufMax) == start + n
  {
    assert Closes(s, start, start + n);
  }

  lemma SumsAgree(s: seq<int>, start: nat, e: nat, sum: int, bufMax: nat)
    requires start <= e && e - start < bufMax && e + 2 < |s| && IsByte(sum)
    requires s[e] == HASH && s[e + 1] == HexChar(sum / 16) && s[e + 2] == HexChar(sum % 16)
    ensures Settle(s, start, e, sum, bufMax) == Accepted(s[start..e], e + 3)
  {
    DigitsOfSum(sum);
  }

  lemma DigitsOfSum(v: int)
    requires IsByte(v)
    ensures SentSum(HexChar(v / 16), HexChar(v % 16)) == v
  {
  }

  lemma PacketLayout(noise: seq<int>, data: seq<int>, rest: seq<int>, s: seq<int>)
    requires Bytes(data) && s == noise + Packet(data) + rest
    ensures |Packet(data)| == |Payload(data, 0)| + 4
    ensures s[|noise|] == DOLLAR
    ensures s[|noise| + 1..|noise| + 1 + |Payload(data, 0)|] == Payload(data, 0)
    ensures s[|noise| + 1 + |Payload(data, 0)|] == HASH
    ensures s[|noise| + 2 + |Payload(data, 0)|] == HexChar(Sum(Payload(data, 0)) % 256 / 16)
    ensures s[|noise| + 3 + |Payload(data, 0)|] == HexChar(Sum(Payload(data, 0)) % 256 % 16)
  {
    var body := Payload(data, 0);
    var w := Packet(data);
    assert w[0] == DOLLAR && w[1..1 + |body|] == body && w[1 + |body|] == HASH;
    assert forall i :: 0 <= i < |w| ==> s[|noise| + i] == w[i];
    assert s[|noise| + 1..|noise| + 1 + |body|] == w[1..1 + |body|];
  }

  lemma BodyIsClean(data: seq<int>, s: seq<int>, start: nat)
    requires Bytes(data) && start + |Payload(data, 0)| <= |s|
    requires s[start..start + |Payload(data, 0)|] == Payload(data, 0)
    ensures forall j :: start <= j < start + |Payload(data, 0)| ==> s[j] != HASH && s[j] != QUOTE
  {
    var body := Payload(data, 0);
    forall j | start <= j < start + |body| ensures s[j] != HASH && s[j] != QUOTE {
      PayloadIsPlain(data, 0, j - start);
      assert s[start..start + |body|][j - start] == s[j];
    }
  }

  lemma NoiseSkipped(noise: seq<int>, s: seq<int>)
    requires |noise| < |s| && s[..|noise|] == noise && s[|noise|] == DOLLAR
    requires forall i :: 0 <= i < |noise| ==> noise[i] % 128 != DOLLAR
    ensures SkipTo(s, 0) == |noise|
  {
    assert forall i :: 0 <= i < |noise| ==> s[i] == noise[i];
  }

  /** A stream with noise, a '$', a clean body and its checksum is taken apart as it was put together. */
  lemma StreamAccepted(s: seq<int>, noise: seq<int>, body: seq<int>, sum: int, bufMax: nat)
    requires |noise| + |body| + 3 < |s| && |body| < bufMax && sum == Sum(body) % 256
    requires s[..|noise|] == noise && s[|noise|] == DOLLAR
    requires forall i :: 0 <= i < |noise| ==> noise[i] % 128 != DOLLAR
    requires s[|noise| + 1..|noise| + 1 + |body|] == body
    requires forall j :: |noise| + 1 <= j < |noise| + 1 + |body| ==> s[j] != HASH && s[j] != QUOTE
    requires s[|noise| + 1 + |body|] == HASH
    requires s[|noise| + 2 + |body|] == HexChar(sum / 16) && s[|noise| + 3 + |body|] == HexChar(sum % 16)
    ensures Attempt(s, bufMax) == Accepted(body, |noise| + |body| + 4)
  {
    var start := |noise| + 1;
    NoiseSkipped(noise, s);
    EndFound(s, start, |body|, bufMax);
    AttemptSettles(s, |noise|, start + |body|, body, bufMax);
    SumsAgree(s, start, start + |body|, sum, bufMax);
  }

  lemma AttemptSettles(s: seq<int>, d: nat, e: nat, body: seq<int>, bufMax: nat)
    requires d < e < |s| && e - (d + 1) < bufMax && SkipTo(s, 0) == d && BodyEnd(s, d + 1, d + 1, bufMax) == e
    requires s[d + 1..e] == body
    ensures Attempt(s, bufMax) == Settle(s, d + 1, e, Sum(body) % 256, bufMax)
  {
  }

  /** The receiver finds the body of a packet whatever noise precedes it and whatever follows. */
  lemma PacketIsAccepted(noise: seq<int>, data: seq<int>, rest: seq<int>, bufMax: nat)
    requires Bytes(data) && bufMax > |Payload(data, 0)|
    requires forall i :: 0 <= i < |noise| ==> noise[i] % 128 != DOLLAR
    ensures Attempt(noise + Packet(data) + rest, bufMax) == Accepted(Payload(data, 0), |noise| + |Packet(data)|)
  {
    var s := noise + Packet(data) + rest;
    var body := Payload(data, 0);
    PacketLayout(noise, data, rest, s);
    assert s[..|noise|] == noise;
    BodyIsClean(data, s, |noise| + 1);
    StreamAccepted(s, noise, body, Sum(body) % 256, bufMax);
  }

  /** What GDB reads out of a packet: the body, runs expanded, pairs of digits turned into bytes. */
  function Decoded(body: seq<int>): seq<int> {
    var text := Expand([], body);
    seq(|text| / 2, i requires 0 <= i < |text| / 2 => HexPair(text[2 * i], text[2 * i + 1]))
  }

  /** Every non-empty byte string comes back from its packet. */
  lemma RoundTrip(noise: seq<int>, data: seq<int>, rest: seq<int>, bufMax: nat)
    requires Bytes(data) && data != [] && bufMax > |Payload(data, 0)|
    requires forall i :: 0 <= i < |noise| ==> noise[i] % 128 != DOLLAR
    ensures Attempt(noise + Packet(data) + rest, bufMax).Accepted?
    ensures Decoded(Attempt(noise + Packet(data) + rest, bufMax).body) == data
  {
    PacketIsAccepted(noise, data, rest, bufMax);
    PayloadDecodes(data);
  }

  lemma PayloadDecodes(data: seq<int>)
    requires Bytes(data)
    ensures Decoded(Payload(data, 0)) == data
  {
    ExpandPayload([], data, 0);
    assert data[0..] == data;
    var text := Hexified(data);
    assert [] + text == text;
    forall i | 0 <= i < |data| ensures PairIs(text, i, data[i]) { HexifiedPair(data, i); }
    PairsDecode(Payload(data, 0), text, data);
  }

  lemma PairsDecode(body: seq<int>, text: seq<int>, data: seq<int>)
    requires Expand([], body) == text && |text| == 2 * |data|
    requires forall i :: 0 <= i < |data| ==> PairIs(text, i, data[i])
    ensures Decoded(body) == data
  {
    assert |text| / 2 == |data|;
  }

  // ---- the X command ----

  datatype Bytestring = Bytestring(bytes: seq<int>) | Truncated

  /** XOR with 0x20. */
  function Flip(b: int): (r: int)
    ensures IsByte(b) ==> IsByte(r)
  {
    if b / 32 % 2 == 1 then b - 32 else b + 32
  }

  function Prepend(a: seq<int>, r: Bytestring): Bytestring {
    if r.Truncated? then Truncated else Bytestring(a + r.bytes)
  }

  lemma PrependTwice(a: seq<int>, b: seq<int>, r: Bytestring)
    ensures Prepend(a, Prepend(b, r)) == Prepend(a + b, r)
  {
    if r.Bytestring? { Associate(a, b, r.bytes); }
  }

  /** The text with its quotes resolved; a quote at the very end is an error. */
  function Unquoted(s: seq<int>): Bytestring {
    if s == [] then Bytestring([])
    else if s[0] == QUOTE then
      if |s| < 2 then Truncated else Prepend([Flip(s[1])], Unquoted(s[2..]))
    else Prepend([s[0]], Unquoted(s[1..]))
  }

  /** Dequoting left to right over the packet itself: the writes never overtake the reads. */
  method Dequote(buf: array<int>, ptr: nat, len: nat) returns (ok: bool, out: nat)
    requires ptr + len <= buf.Length
    modifies buf
    ensures ok <==> Unquoted(old(buf[ptr..ptr + len])).Bytestring?
    ensures ok ==> out <= ptr + len && buf[..out] == Unquoted(old(buf[ptr..ptr + len])).bytes
    ensures forall i :: ptr + len <= i < buf.Length ==> buf[i] == old(buf[i])
  {
    var end := ptr + len;
    var p := ptr;
    out := 0;
    ghost var was := buf[..];
    assert buf[ptr..end] == was[ptr..end];
    assert buf[..0] == [];
    while p < end
      invariant out <= p <= end == ptr + len <= buf.Length == |was|
      invariant forall i :: p <= i < buf.Length ==> buf[i] == was[i]
      invariant Prepend(buf[..out], Unquoted(was[p..end])) == Unquoted(was[ptr..end])
    {
      UnquotedAt(was, p, end, buf[..out]);
      var b, step := buf[p], 1;
      if b == QUOTE {
        if end - p < 2 {
          return false, out;
        }
        b, step := Flip(buf[p + 1]), 2;
      }
      buf[out] := b;
      assert buf[..out + 1] == buf[..out] + [b];
      out, p := out + 1, p + step;
    }
    return true, out;
  }

  lemma UnquotedStep(s: seq<int>, done: seq<int>)
    requires s != []
    ensures s[0] == QUOTE && |s| < 2 ==> Prepend(done, Unquoted(s)) == Truncated
    ensures s[0] == QUOTE && |s| >= 2 ==> Prepend(done, Unquoted(s)) == Prepend(done + [Flip(s[1])], Unquoted(s[2..]))
    ensures s[0] != QUOTE ==> Prepend(done, Unquoted(s)) == Prepend(done + [s[0]], Unquoted(s[1..]))
  {
    if s[0] == QUOTE && |s| >= 2 { PrependTwice(done, [Flip(s[1])], Unquoted(s[2..])); }
    if s[0] != QUOTE { PrependTwice(done, [s[0]], Unquoted(s[1..])); }
  }

  lemma UnquotedAt(s: seq<int>, p: nat, end: nat, done: seq<int>)
    requires p < end <= |s|
    ensures s[p] == QUOTE && end - p < 2 ==> Prepend(done, Unquoted(s[p..end])) == Truncated
    ensures s[p] == QUOTE && end - p >= 2 ==> Prepend(done, Unquoted(s[p..end])) == Prepend(done + [Flip(s[p + 1])], Unquoted(s[p + 2..end]))
    ensures s[p] != QUOTE ==> Prepend(done, Unquoted(s[p..end])) == Prepend(done + [s[p]], Unquoted(s[p + 1..end]))
  {
    var t := s[p..end];
    UnquotedStep(t, done);
    assert t[1..] == s[p + 1..end];
    if end - p >= 2 { assert t[2..] == s[p + 2..end]; }
  }

  /** The sender's side: bytes of a set that includes the quote itself are quoted. */
  function Quoted(data: seq<int>, special: set<int>): seq<int> {
    if data == [] then []
    else (if data[0] in special then [QUOTE, Flip(data[0])] else [data[0]]) + Quoted(data[1..], special)
  }

  lemma {:induction false} UnquoteQuoted(data: seq<int>, special: set<int>)
    requires QUOTE in special
    ensures Unquoted(Quoted(data, special)) == Bytestring(data)
  {
    if data != [] {
      UnquoteQuoted(data[1..], special);
      var s, rest := Quoted(data, special), Quoted(data[1..], special);
      UnquotedStep(s, []);
      if data[0] in special {
        assert s[2..] == rest;
        assert Flip(Flip(data[0])) == data[0];
      } else {
        assert s[1..] == rest;
      }
      assert data == [data[0]] + data[1..];
    }
  }

  lemma {:induction false} UnquotedLength(s: seq<int>)
    ensures Unquoted(s).Bytestring? ==> |Unquoted(s).bytes| <= |s|
    ensures Unquoted(s).Bytestring? && QUOTE in s ==> |Unquoted(s).bytes| < |s|
    decreases |s|
  {
    if s != [] {
      if s[0] == QUOTE {
        if |s| >= 2 { UnquotedLength(s[2..]); }
      } else {
        UnquotedLength(s[1..]);
        assert QUOTE in s ==> QUOTE in s[1..];
      }
    }
  }

  /**
    The X command reads as many characters as the packet announces bytes: quoting that pushes bytes beyond that point
    loses them. The data arrive whole exactly when none of them had to be quoted.
   */
  lemma AnnouncedLength(data: seq<int>, special: set<int>)
    requires QUOTE in special
    ensures |Quoted(data, special)| >= |data|
    ensures Unquoted(Quoted(data, special)[..|data|]) == Bytestring(data) <==> forall i :: 0 <= i < |data| ==> data[i] !in special
  {
    QuotedPrefix(data, special);
    var s := Quoted(data, special)[..|data|];
    if forall i :: 0 <= i < |data| ==> data[i] !in special {
      assert s == Quoted(data, special);
      UnquoteQuoted(data, special);
    } else {
      assert QUOTE in s;
      UnquotedLength(s);
    }
  }

  /** One quote: the packet announces one byte, the stub reads one character and finds a quote with nothing after it. */
  lemma LostQuote()
    ensures Quoted([QUOTE], {QUOTE}) == [QUOTE, 0x5d]
    ensures Unquoted(Quoted([QUOTE], {QUOTE})[..1]) == Truncated
  {
    assert [QUOTE][1..] == [] && Quoted([], {QUOTE}) == [];
    var s := Quoted([QUOTE], {QUOTE});
    assert s[..1] == [QUOTE];
  }

  /** One '#': its quote is the last character read as well, and the byte is lost. */
  lemma LostHash()
    ensures Quoted([HASH, 0x41], {QUOTE, HASH}) == [QUOTE, 3, 0x41]
    ensures Unquoted(Quoted([HASH, 0x41], {QUOTE, HASH})[..2]) == Bytestring([HASH])
  {
    var sp := {QUOTE, HASH};
    assert [HASH, 0x41][1..] == [0x41] && [0x41][1..] == [] && Quoted([], sp) == [];
    assert Quoted([0x41], sp) == [0x41];
    var s := Quoted([HASH, 0x41], sp);
    assert s[..2] == [QUOTE, 3];
    assert [QUOTE, 3][2..] == [] && Unquoted([]) == Bytestring([]);
    assert Prepend([HASH], Bytestring([])) == Bytestring([HASH]);
  }

  lemma {:induction false} QuotedPrefix(data: seq<int>, special: set<int>)
    ensures |Quoted(data, special)| >= |data|
    ensures (forall i :: 0 <= i < |data| ==> data[i] !in special) ==> |Quoted(data, special)| == |data|
    ensures (exists i :: 0 <= i < |data| && data[i] in special) ==> QUOTE in Quoted(data, special)[..|data|]
  {
    if data != [] {
      var tail := data[1..];
      QuotedPrefix(tail, special);
      var s := Quoted(data, special);
      if data[0] in special {
        assert s[..|data|][0] == QUOTE;
      } else {
        assert s[..|data|] == [data[0]] + Quoted(tail, special)[..|tail|];
        assert forall i :: 0 < i < |data| ==> data[i] == tail[i - 1];
        assert forall i :: 0 <= i < |tail| ==> tail[i] == data[i + 1];
      }
    }
  }
}
