/** The command protocol between client and daemon: text frames over a byte stream that may be cut
    into pieces anywhere, in both directions. */
module Wire {
  import opened CText

  // ---------- numbers of fixed width ----------

  const FIELD: nat := 10

  /** The digits of m, filled up with zeros. */
  function PadDigits(m: nat, width: nat): (s: string)
    ensures |s| >= width && |s| >= |Decimal(m)| && AllDigits(s)
  {
    var d := Decimal(m);
    if |d| < width then Zeros(width - |d|) + d else d
  }

  lemma NumberOfPadDigits(m: nat, width: nat)
    ensures Number(PadDigits(m, width)) == m
  {
    NumberOfDecimal(m);
    NumberOfFilled(Decimal(m), width);
  }

  lemma NumberOfFilled(d: string, width: nat)
    requires AllDigits(d)
    ensures var s := if |d| < width then Zeros(width - |d|) + d else d; AllDigits(s) && Number(s) == Number(d)
  {
    if |d| < width {
      NumberOfPadded(width - |d|, d);
    }
  }

  /** `%010d`. */
  function Pad(n: int): (s: string)
    ensures |s| >= FIELD
  {
    if n < 0 then "-" + PadDigits(-n, FIELD - 1) else PadDigits(n, FIELD)
  }

  lemma AtoiOfPad(n: int)
    ensures Atoi(Pad(n)) == n
  {
    if n < 0 {
      NumberOfPadDigits(-n, FIELD - 1);
      AtoiOfNegative(PadDigits(-n, FIELD - 1));
    } else {
      NumberOfPadDigits(n, FIELD);
      AtoiOfDigits(PadDigits(n, FIELD));
    }
  }

  function PowerOfTen(k: nat): (p: nat)
    ensures p >= 1
  {
    if k == 0 then 1 else 10 * PowerOfTen(k - 1)
  }

  lemma {:induction false} DecimalLength(n: nat, k: nat)
    requires k >= 1
    ensures |Decimal(n)| <= k <==> n < PowerOfTen(k)
    decreases k
  {
    if k == 1 {
      assert PowerOfTen(1) == 10 * PowerOfTen(0);
      assert n >= 10 ==> |Decimal(n / 10)| >= 1;
    } else {
      DecimalLength(n / 10, k - 1);
      assert PowerOfTen(k) == 10 * PowerOfTen(k - 1);
      assert PowerOfTen(k) >= 10;
    }
  }

  /** The number fits its field. */
  predicate Fits(n: int) {
    -1_000_000_000 < n < 10_000_000_000
  }

  lemma PadWidth(n: int)
    ensures |Pad(n)| == FIELD <==> Fits(n)
  {
    TenToTheNine();
    assert PowerOfTen(10) == 10 * PowerOfTen(9);
    DecimalLength(if n < 0 then -n else n, if n < 0 then 9 else 10);
  }

  // ---------- commands ----------

  datatype Command = Command(index: int, ecgName: string, options: string)

  function EncodeBody(c: Command): (s: string) {
    ":" + (Pad(c.index) + ":" + (c.ecgName + ":" + (c.options + ":")))
  }

  /** htxclient_prepare_command_string. */
  function EncodeCommand(c: Command): (s: string) {
    Pad(|EncodeBody(c)|) + EncodeBody(c)
  }

  /** What a small command and a small response look like. */
  lemma FrameForms()
    ensures EncodeCommand(Command(7, "a", "b")) == "0000000016:0000000007:a:b:"
    ensures EncodeResponse(Response(-3, "ab")) == "-0000000030000000002ab"
  {
    SmallPads();
    assert |EncodeBody(Command(7, "a", "b"))| == 16;
    assert "-" + "000000003" + ("0000000002" + "ab") == "-0000000030000000002ab";
  }

  lemma SmallPads()
    ensures Pad(7) == "0000000007" && Pad(16) == "0000000016" && Pad(2) == "0000000002" && Pad(-3) == "-000000003"
  {
    assert Decimal(7) == "7" && Decimal(3) == "3" && Decimal(2) == "2" && Decimal(1) == "1" && Decimal(16) == "16";
    assert Zeros(9) == "000000000" && Zeros(8) == "00000000";
  }

  const COLON: set<char> := {':'}

  /** What comes after the first colon. */
  function Rest(s: string): (r: string)
    requires ':' in s
  {
    s[Span(s, COLON) + 1..]
  }

  lemma ColonAfter(t: string, rest: string)
    requires ':' !in t
    ensures ':' in t + ":" + rest && Span(t + ":" + rest, COLON) == |t|
    ensures (t + ":" + rest)[..|t|] == t && Rest(t + ":" + rest) == rest
  {
    var s := t + ":" + rest;
    assert s[|t|] == ':' && s == t + (":" + rest);
    SpanOfToken(t, ":" + rest, COLON);
  }

  /** A short ECG name means a file in the mdt directory. */
  function Qualified(home: string, name: string): (r: string) {
    if name != "" && '/' !in name then home + "/mdt/" + name else name
  }

  /** A name that is a path arrives unchanged, so qualifying twice is qualifying once. */
  lemma QualifiedOnce(home: string, name: string)
    ensures '/' in name ==> Qualified(home, name) == name
    ensures name != "" && '/' !in name ==> Qualified(home, name) == home + "/mdt/" + name
    ensures name == "" ==> Qualified(home, name) == ""
    ensures Qualified(home, Qualified(home, name)) == Qualified(home, name)
  {
    if name != "" && '/' !in name {
      assert Qualified(home, name)[|home|] == '/';
    }
  }

  /** What the daemon can take apart: two colons after the first character, and something after. */
  predicate Decodable(s: string) {
    s != "" && ':' in s[1..] && ':' in Rest(s[1..]) && Rest(Rest(s[1..])) != ""
  }

  datatype Parts = Parts(number: string, name: string, options: string)

  function PartsOf(s: string): (p: Parts)
    requires Decodable(s)
  {
    var a := s[1..];
    var b := Rest(a);
    var c := Rest(b);
    Parts(a[..Span(a, COLON)], b[..Span(b, COLON)], c[..|c| - 1])
  }

  function Decode(s: string, home: string): (c: Command)
    requires Decodable(s)
  {
    var p := PartsOf(s);
    Command(Atoi(p.number), Qualified(home, p.name), p.options)
  }

  /** htxd_get_string_value: copy up to the next colon. */
  method GetStringValue(s: string) returns (value: string, processed: nat)
    requires ':' in s
    ensures processed == Span(s, COLON) < |s| && value == s[..processed]
  {
    value, processed := "", 0;
    while s[processed] != ':'
      invariant processed <= Span(s, COLON) < |s| && value == s[..processed]
      decreases Span(s, COLON) - processed
    {
      value := value + [s[processed]];
      processed := processed + 1;
    }
  }

  /** One field and the step over its colon. */
  method NextField(s: string, at: nat) returns (value: string, start: nat)
    requires at <= |s| && ':' in s[at..]
    ensures value == s[at..][..Span(s[at..], COLON)]
    ensures start <= |s| && s[start..] == Rest(s[at..])
  {
    var processed;
    value, processed := GetStringValue(s[at..]);
    start := at + processed;
    start := start + 1;
  }

  /** htxd_update_command_object. */
  method UpdateCommandObject(s: string, home: string) returns (c: Command)
    requires Decodable(s)
    ensures c == Decode(s, home)
  {
    var number, start := NextField(s, 1);
    var name;
    name, start := NextField(s, start);
    var options := s[start..];
    options := options[..|options| - 1];
    c := Command(Atoi(number), if name != "" && '/' !in name then home + "/mdt/" + name else name, options);
  }

  lemma PadHasNoColon(n: int)
    ensures ':' !in Pad(n)
  {
  }

  /** A string with two colon-free fields. */
  lemma PartsOfFields(number: string, name: string, tail: string)
    requires ':' !in number && ':' !in name && tail != ""
    ensures var s := ":" + (number + ":" + (name + ":" + tail));
      Decodable(s) && PartsOf(s) == Parts(number, name, tail[..|tail| - 1])
  {
    var b := name + ":" + tail;
    var a := number + ":" + b;
    assert (":" + a)[1..] == a;
    ColonAfter(number, b);
    ColonAfter(name, tail);
  }

  lemma PartsOfWholeName(c: Command)
    requires ':' !in c.ecgName
    ensures Decodable(EncodeBody(c)) && PartsOf(EncodeBody(c)) == Parts(Pad(c.index), c.ecgName, c.options)
  {
    PadHasNoColon(c.index);
    var tail := c.options + ":";
    PartsOfFields(Pad(c.index), c.ecgName, tail);
    assert tail[..|tail| - 1] == c.options;
  }

  /** A name with a colon ends there, and the rest of it goes to the options. */
  lemma PartsOfSplitName(c: Command)
    requires ':' in c.ecgName
    ensures Decodable(EncodeBody(c)) && |PartsOf(EncodeBody(c)).options| > |c.options|
  {
    PadHasNoColon(c.index);
    var n := Span(c.ecgName, COLON);
    var name, rest := c.ecgName[..n], c.ecgName[n + 1..];
    var tail := rest + ":" + (c.options + ":");
    assert c.ecgName == name + ":" + rest;
    Regrouped(name, rest, c.options + ":");
    assert EncodeBody(c) == ":" + (Pad(c.index) + ":" + (name + ":" + tail));
    PartsOfFields(Pad(c.index), name, tail);
  }

  lemma Regrouped(a: string, b: string, c: string)
    ensures a + ":" + b + ":" + c == a + ":" + (b + ":" + c)
  {
  }

  lemma DecodeOfBody(c: Command, home: string)
    ensures Decodable(EncodeBody(c))
    ensures ':' !in c.ecgName ==> Decode(EncodeBody(c), home) == Command(c.index, Qualified(home, c.ecgName), c.options)
    ensures ':' in c.ecgName ==> |Decode(EncodeBody(c), home).options| > |c.options|
  {
    if ':' in c.ecgName {
      PartsOfSplitName(c);
    } else {
      PartsOfWholeName(c);
      AtoiOfPad(c.index);
    }
  }

  /** Index, name and options survive the trip exactly when the name has no colon; the options may
      have any. */
  lemma CommandRoundTripIff(c: Command, home: string)
    ensures Decodable(EncodeBody(c))
    ensures Decode(EncodeBody(c), home) == Command(c.index, Qualified(home, c.ecgName), c.options)
       <==> ':' !in c.ecgName
  {
    DecodeOfBody(c, home);
  }

  // ---------- the byte stream ----------

  /** Up to n bytes from the front. */
  function Take(s: string, n: nat): (r: string) {
    if n < |s| then s[..n] else s
  }

  function Drop(s: string, n: nat): (r: string) {
    if n < |s| then s[n..] else ""
  }

  /** One direction of a connection.  What recv and send do is drawn from `chance`: a negative
      value is an error, any other decides how many of the possible bytes get through. */
  class Stream {
    var unread: string
    const chance: nat -> int
    var calls: nat

    constructor (chance: nat -> int)
      ensures unread == "" && this.chance == chance && calls == 0
    {
      unread, this.chance, calls := "", chance, 0;
    }

    /** recv: at least one byte while there are any, 0 at the end of the stream, -1 on an error. */
    method Recv(max: nat) returns (n: int, bytes: string)
      requires max > 0
      modifies this`unread, this`calls
      ensures n == -1 <==> chance(old(calls)) < 0
      ensures n == -1 ==> bytes == "" && unread == old(unread)
      ensures n != -1 ==> 0 <= n <= max && n <= |old(unread)| && (n == 0 <==> old(unread) == "")
      ensures n != -1 ==> bytes == old(unread)[..n] && unread == old(unread)[n..]
    {
      var c := chance(calls);
      calls := calls + 1;
      if c < 0 {
        return -1, "";
      }
      var possible := if max < |unread| then max else |unread|;
      n := if possible == 0 then 0 else 1 + c % possible;
      bytes := unread[..n];
      unread := unread[n..];
    }

    /** htxd_receive_bytes: the exact prefix of the stream, however it is cut. */
    method ReceiveBytes(length: nat) returns (rc: int, buffer: string)
      modifies this`unread, this`calls
      ensures (forall k: nat :: chance(k) >= 0) ==> rc != -1
      ensures rc != -1 ==> rc == |buffer| && buffer == Take(old(unread), length) && unread == Drop(old(unread), length)
    {
      var remaining := length;
      buffer := "";
      while remaining > 0
        invariant 0 <= remaining <= length && |buffer| == length - remaining
        invariant old(unread) == buffer + unread
      {
        var n, bytes := Recv(remaining);
        if n == -1 {
          return -1, buffer;
        }
        if n == 0 {
          break;
        }
        remaining := remaining - n;
        buffer := buffer + bytes;
      }
      rc := length - remaining;
    }

    /** The send loop of htxd_send_response. */
    method SendAll(text: string) returns (rc: int)
      modifies this`unread, this`calls
      ensures (forall k: nat :: chance(k) >= 0) ==> rc != -1
      ensures rc != -1 ==> unread == old(unread) + text
    {
      var sent := 0;
      while sent < |text|
        invariant 0 <= sent <= |text| && unread == old(unread) + text[..sent]
      {
        var c := chance(calls);
        calls := calls + 1;
        if c < 0 {
          return -1;
        }
        var n := 1 + c % (|text| - sent);
        unread := unread + text[sent..sent + n];
        sent := sent + n;
      }
      assert text[..|text|] == text;
      rc := 0;
    }

    /** htxd_receive_command: the length field, then that many bytes. */
    method ReceiveCommand() returns (ok: bool, command: string)
      requires Atoi(Take(unread, FIELD)) >= 0
      modifies this`unread, this`calls
      ensures (forall k: nat :: chance(k) >= 0) ==> ok
      ensures ok ==> var s := old(unread); var n := Atoi(Take(s, FIELD));
        command == Take(Drop(s, FIELD), n) && unread == Drop(Drop(s, FIELD), n)
    {
      var rc, field := ReceiveBytes(FIELD);
      if rc == -1 {
        return false, "";
      }
      rc, command := ReceiveBytes(Atoi(field));
      ok := rc != -1;
    }
  }

  lemma TakeDropConcat(a: string, b: string)
    ensures Take(a + b, |a|) == a && Drop(a + b, |a|) == b
  {
  }

  lemma ConcatAssociates(a: string, b: string, c: string)
    ensures a + b + c == a + (b + c)
  {
  }

  /** The frame of a command ends where the command does, whatever follows it. */
  lemma CommandFrame(body: string, more: string)
    requires Fits(|body|)
    ensures var s := Pad(|body|) + (body + more);
      Atoi(Take(s, FIELD)) == |body| && Take(Drop(s, FIELD), |body|) == body && Drop(Drop(s, FIELD), |body|) == more
  {
    PadWidth(|body|);
    AtoiOfPad(|body|);
    TakeDropConcat(Pad(|body|), body + more);
    TakeDropConcat(body, more);
  }

  /** A command sent by the client and served by the daemon over any stream without errors, cut
      in any way, with anything behind it. */
  method ServeCommand(s: Stream, home: string, ghost c: Command, ghost more: string) returns (ok: bool, r: Command)
    requires Fits(|EncodeBody(c)|) && s.unread == EncodeCommand(c) + more
    modifies s
    ensures (forall k: nat :: s.chance(k) >= 0) ==> ok
    ensures Decodable(EncodeBody(c)) && (ok ==> s.unread == more && r == Decode(EncodeBody(c), home))
    ensures ok ==> (r == Command(c.index, Qualified(home, c.ecgName), c.options) <==> ':' !in c.ecgName)
    ensures ok && '/' in c.ecgName && ':' !in c.ecgName ==> r == c
  {
    CommandRoundTripIff(c, home);
    QualifiedOnce(home, c.ecgName);
    ConcatAssociates(Pad(|EncodeBody(c)|), EncodeBody(c), more);
    ok, r := ServeFrame(s, home, EncodeBody(c), more);
  }

  /** Receive one frame and take it apart. */
  method ServeFrame(s: Stream, home: string, ghost body: string, ghost more: string) returns (ok: bool, r: Command)
    requires Decodable(body) && Fits(|body|) && s.unread == Pad(|body|) + (body + more)
    modifies s
    ensures (forall k: nat :: s.chance(k) >= 0) ==> ok
    ensures ok ==> s.unread == more && r == Decode(body, home)
  {
    CommandFrame(body, more);
    var text;
    ok, text := s.ReceiveCommand();
    if ok {
      r := UpdateCommandObject(text, home);
    } else {
      r := Command(0, "", "");
    }
  }

  // ---------- responses ----------

  datatype Response = Response(returnCode: int, text: string)

  function EncodeResponse(r: Response): (s: string) {
    Pad(r.returnCode) + (Pad(|r.text|) + r.text)
  }

  /** The two number fields of a response. */
  function ReturnCode(s: string): (n: int) {
    Atoi(Take(s, FIELD))
  }

  function TextLength(s: string): (n: int) {
    Atoi(Take(Drop(s, FIELD), FIELD))
  }

  /** htxclient_receive_response, when nothing goes wrong. */
  function DecodeResponse(s: string): (r: Response)
    requires TextLength(s) >= 0
  {
    Response(ReturnCode(s), Take(Drop(Drop(s, FIELD), FIELD), TextLength(s)))
  }

  method ReceiveResponse(s: Stream) returns (ok: bool, r: Response)
    requires TextLength(s.unread) >= 0
    modifies s
    ensures (forall k: nat :: s.chance(k) >= 0) ==> ok
    ensures ok ==> r == DecodeResponse(old(s.unread))
  {
    r := Response(0, "");
    var rc, field := s.ReceiveBytes(FIELD);
    if rc == -1 {
      return false, r;
    }
    var returnCode := Atoi(field);
    rc, field := s.ReceiveBytes(FIELD);
    if rc == -1 {
      return false, r;
    }
    var text;
    rc, text := s.ReceiveBytes(Atoi(field));
    ok, r := rc != -1, Response(returnCode, text);
  }

  lemma ResponseFrame(r: Response)
    requires Fits(r.returnCode) && Fits(|r.text|)
    ensures TextLength(EncodeResponse(r)) == |r.text| && DecodeResponse(EncodeResponse(r)) == r
  {
    PadWidth(r.returnCode);
    PadWidth(|r.text|);
    AtoiOfPad(r.returnCode);
    AtoiOfPad(|r.text|);
    TakeDropConcat(Pad(r.returnCode), Pad(|r.text|) + r.text);
    TakeDropConcat(Pad(|r.text|), r.text);
  }

  lemma {:induction false} NumberBelow(s: string)
    requires AllDigits(s)
    ensures Number(s) < PowerOfTen(|s|)
  {
    if s != "" {
      NumberBelow(s[..|s| - 1]);
    }
  }

  lemma TenToTheNine()
    ensures PowerOfTen(9) == 1_000_000_000
  {
    assert PowerOfTen(3) == 1_000;
    assert PowerOfTen(6) == 1_000_000;
  }

  lemma TenDigits(n: int)
    requires -10_000_000_000 < n <= -1_000_000_000
    ensures |Decimal(-n)| == 10 && Pad(n) == "-" + Decimal(-n)
  {
    TenToTheNine();
    DecimalLength(-n, 9);
    DecimalLength(-n, 10);
    assert PowerOfTen(10) == 10 * PowerOfTen(9);
  }

  /** Eleven characters in front take up one field and the first place of the next. */
  lemma SpilledFields(d: string, rest: string)
    requires |d| == FIELD && |rest| >= FIELD
    ensures var s := "-" + d + rest;
      Take(s, FIELD) == "-" + d[..FIELD - 1] && Take(Drop(s, FIELD), FIELD) == [d[FIELD - 1]] + rest[..FIELD - 1]
  {
  }

  lemma NegativeAbove(digits: string)
    requires AllDigits(digits) && |digits| == 9
    ensures Atoi("-" + digits) > -1_000_000_000
  {
    TenToTheNine();
    AtoiOfNegative(digits);
    NumberBelow(digits);
  }

  /** A return code too long for its field is cut short, and spills into the next. */
  lemma ResponseSpill(r: Response)
    requires r.returnCode <= -1_000_000_000 && r.returnCode > -10_000_000_000
    ensures TextLength(EncodeResponse(r)) >= 0 && ReturnCode(EncodeResponse(r)) > -1_000_000_000
  {
    var d, n := Decimal(-r.returnCode), Pad(|r.text|);
    TenDigits(r.returnCode);
    SpilledFields(d, n + r.text);
    NegativeAbove(d[..9]);
    var second := [d[9]] + (n + r.text)[..9];
    assert AllDigits(second);
    AtoiOfDigits(second);
  }

  /** Return code and text arrive exactly when the return code fits ten characters; a C int does
      unless it is -1000000000 or less. */
  lemma ResponseRoundTripIff(r: Response)
    requires -0x8000_0000 <= r.returnCode < 0x8000_0000 && Fits(|r.text|)
    ensures TextLength(EncodeResponse(r)) >= 0
    ensures DecodeResponse(EncodeResponse(r)) == r <==> Fits(r.returnCode)
  {
    if Fits(r.returnCode) {
      ResponseFrame(r);
    } else {
      ResponseSpill(r);
    }
  }

  /** A response sent in pieces and received in pieces. */
  method ExchangeResponse(s: Stream, r: Response) returns (ok: bool, received: Response)
    requires s.unread == "" && -0x8000_0000 <= r.returnCode < 0x8000_0000 && Fits(|r.text|)
    modifies s
    ensures (forall k: nat :: s.chance(k) >= 0) ==> ok
    ensures TextLength(EncodeResponse(r)) >= 0 && (ok ==> received == DecodeResponse(EncodeResponse(r)))
    ensures ok ==> (received == r <==> Fits(r.returnCode))
  {
    ResponseRoundTripIff(r);
    received := r;
    var rc := s.SendAll(EncodeResponse(r));
    ok := rc != -1;
    if ok {
      assert "" + EncodeResponse(r) == EncodeResponse(r);
      ok, received := ReceiveResponse(s);
    }
  }
}
