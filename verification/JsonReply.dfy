/** MessageHandler::sendMessages: the JSON text built on a stringstream, whose last separator
    is overwritten after moving the put position back by two. */
module JsonReply {
  import opened Common

  /** std::stringstream: a buffer, a put position inside it, and the fail bit. Writing at the
      position overwrites what is there and extends the buffer when it runs past the end. */
  class StringStream {
    var buf: string
    var pos: nat
    var failed: bool

    ghost predicate Valid()
      reads this
    {
      pos <= |buf|
    }

    constructor ()
      ensures Valid() && buf == "" && pos == 0 && !failed
    {
      buf, pos, failed := "", 0, false;
    }

    method Write(s: string)
      requires Valid()
      modifies this
      ensures Valid() && failed == old(failed)
      ensures failed ==> buf == old(buf) && pos == old(pos)
      ensures !failed ==> buf == Put(old(buf), old(pos), s) && pos == old(pos) + |s|
      ensures !failed && old(pos) == |old(buf)| ==> buf == old(buf) + s
    {
      if !failed {
        buf := Put(buf, pos, s);
        pos := pos + |s|;
      }
    }

    /** seekp(offset, cur): out of range sets the fail bit instead. */
    method SeekCur(offset: int)
      requires Valid()
      modifies this
      ensures Valid() && buf == old(buf)
      ensures failed <==> old(failed) || !(0 <= old(pos) + offset <= |buf|)
      ensures pos == if failed then old(pos) else old(pos) + offset
    {
      if failed || !(0 <= pos + offset <= |buf|) {
        failed := true;
      } else {
        pos := pos + offset;
      }
    }
  }

  function Put(buf: string, pos: nat, s: string): string
    requires pos <= |buf|
  {
    buf[..pos] + s + if pos + |s| < |buf| then buf[pos + |s|..] else ""
  }

  /** The text appears at the position; everything else stays, and nothing is cut off. */
  lemma PutAt(buf: string, pos: nat, s: string)
    requires pos <= |buf|
    ensures |Put(buf, pos, s)| == if pos + |s| < |buf| then |buf| else pos + |s|
    ensures Put(buf, pos, s)[pos..pos + |s|] == s
    ensures forall i :: 0 <= i < |buf| && !(pos <= i < pos + |s|) ==> Put(buf, pos, s)[i] == buf[i]
  {
    assert Put(buf, pos, s)[pos..pos + |s|] == s;
  }

  // ---- the text as a list joined by separators ---------------------------------------------

  function Digit(d: nat): (c: char)
    requires d < 10
    ensures IsDigit(c) && DigitValue(c) == d
  {
    "0123456789"[d]
  }

  /** What operator<< prints for a number. */
  function Decimal(n: nat): (s: string)
    ensures s != "" && Clean(s)
  {
    if n < 10 then [Digit(n)] else Decimal(n / 10) + [Digit(n % 10)]
  }

  predicate IsDigit(c: char) { '0' <= c <= '9' }

  function DigitValue(c: char): nat
    requires IsDigit(c)
  {
    c as int - '0' as int
  }

  ghost predicate AllDigits(s: string) { forall i :: 0 <= i < |s| ==> IsDigit(s[i]) }

  /** The number that some digits stand for. */
  function Number(s: string): nat {
    if s == "" then 0
    else
      var n := |s| - 1;
      10 * Number(s[..n]) + (if IsDigit(s[n]) then DigitValue(s[n]) else 0)
  }

  /** A number is written with digits only, and without a leading zero. */
  ghost predicate Writes(s: string, n: nat) {
    s != "" && AllDigits(s) && Number(s) == n && (s[0] == '0' ==> |s| == 1)
  }

  lemma {:induction false} DecimalWrites(n: nat)
    ensures Writes(Decimal(n), n)
    ensures n > 0 ==> Decimal(n)[0] != '0'
  {
    if n < 10 {
      assert Decimal(n)[..0] == "";
    } else {
      DecimalWrites(n / 10);
      assert Decimal(n)[..|Decimal(n)| - 1] == Decimal(n / 10);
    }
  }

  /** In no other way. */
  lemma {:induction false} OnlyDecimalWrites(s: string, n: nat)
    requires Writes(s, n)
    ensures s == Decimal(n)
    decreases |s|
  {
    var k := |s| - 1;
    assert s == s[..k] + [s[k]] && Digit(DigitValue(s[k])) == s[k];
    if k == 0 {
      assert s[..0] == "";
    } else {
      FirstDigitCounts(s[..k]);
      OnlyDecimalWrites(s[..k], Number(s[..k]));
      assert n / 10 == Number(s[..k]) && n % 10 == DigitValue(s[k]);
    }
  }

  lemma {:induction false} FirstDigitCounts(s: string)
    requires s != "" && AllDigits(s) && s[0] != '0'
    ensures Number(s) > 0
  {
    if |s| > 1 { FirstDigitCounts(s[..|s| - 1]); } else { assert s[..0] == ""; }
  }

  const HEADER := "{\n" + "\t\"Messages\":\n" + "\t{\n"
  const TRAILER := "\n\t}\n" + "}\n\r\n\r"

  function Item(number: nat, payload: string): string {
    "\t\t\"" + Decimal(number) + "\": \"" + payload + "\""
  }

  /** The items numbered from k on, separated by ",\n". */
  function Join(payloads: seq<string>, k: nat): string {
    if payloads == [] then ""
    else if |payloads| == 1 then Item(k, payloads[0])
    else Item(k, payloads[0]) + ",\n" + Join(payloads[1..], k + 1)
  }

  function ReplyText(payloads: seq<string>): string {
    HEADER + Join(payloads, 1) + TRAILER
  }

  /** The items as the loop writes them, each with a separator behind it. */
  function Terminated(payloads: seq<string>, k: nat): string {
    if payloads == [] then "" else Item(k, payloads[0]) + ",\n" + Terminated(payloads[1..], k + 1)
  }

  lemma {:induction false} TerminatedSnoc(payloads: seq<string>, p: string, k: nat)
    ensures Terminated(payloads + [p], k) == Terminated(payloads, k) + (Item(k + |payloads|, p) + ",\n")
    decreases |payloads|
  {
    var all := payloads + [p];
    if payloads == [] {
      assert all[1..] == [];
    } else {
      TerminatedSnoc(payloads[1..], p, k + 1);
      assert all[1..] == payloads[1..] + [p];
      Associate(Item(k, payloads[0]) + ",\n", Terminated(payloads[1..], k + 1), Item(k + |payloads|, p) + ",\n");
    }
  }

  lemma Associate(a: string, b: string, c: string)
    ensures a + (b + c) == (a + b) + c
  {
  }

  lemma {:induction false} TerminatedIsJoin(payloads: seq<string>, k: nat)
    requires payloads != []
    ensures Terminated(payloads, k) == Join(payloads, k) + ",\n"
    decreases |payloads|
  {
    if |payloads| == 1 {
      assert Terminated(payloads[1..], k + 1) == "";
    } else {
      TerminatedIsJoin(payloads[1..], k + 1);
      var head, tail := Item(k, payloads[0]) + ",\n", Join(payloads[1..], k + 1);
      assert head + (tail + ",\n") == (head + tail) + ",\n";
    }
  }

  /** The stream construction of sendMessages: for every list, the empty one included, the
      buffer ends up as the joined text, with no separator after the last item. */
  method BuildReply(payloads: seq<string>) returns (text: string)
    ensures text == ReplyText(payloads)
  {
    var out := new StringStream();
    out.Write("{\n");
    out.Write("\t\"Messages\":\n");
    out.Write("\t{\n");
    assert out.buf == HEADER;
    WriteItems(out, HEADER, payloads);
    ghost var kept := HEADER + Join(payloads, 1);
    if |payloads| > 0 {
      TerminatedIsJoin(payloads, 1);
      assert out.buf == kept + ",\n";
      out.SeekCur(-2);
      PutOverSeparator(kept, "\n\t}\n");
    }
    out.Write("\n\t}\n");
    assert out.buf == kept + "\n\t}\n";
    out.Write("}\n\r\n\r");
    text := out.buf;
  }

  method WriteItems(out: StringStream, ghost before: string, payloads: seq<string>)
    requires out.Valid() && !out.failed && out.pos == |out.buf| && out.buf == before
    modifies out
    ensures out.Valid() && !out.failed && out.pos == |out.buf|
    ensures out.buf == before + Terminated(payloads, 1)
  {
    var i := 0;
    while i < |payloads|
      invariant 0 <= i <= |payloads|
      invariant out.Valid() && !out.failed && out.pos == |out.buf|
      invariant out.buf == before + Terminated(payloads[..i], 1)
    {
      assert payloads[..i + 1] == payloads[..i] + [payloads[i]];
      TerminatedSnoc(payloads[..i], payloads[i], 1);
      out.Write(Item(i + 1, payloads[i]) + ",\n");
      i := i + 1;
    }
    assert payloads[..i] == payloads;
  }

  lemma PutOverSeparator(kept: string, s: string)
    requires |s| >= 2
    ensures Put(kept + ",\n", |kept|, s) == kept + s
  {
  }

  // ---- a reader for the RFC 8259 grammar of objects and strings ---------------------------

  datatype Value = Text(text: string) | Num(number: nat) | Object(members: seq<Member>)
  datatype Member = Member(name: string, value: Value)
  datatype Parsed<+T> = Error | Parsed(value: T, rest: string)

  /** Section 2: ws is any run of space, tab, line feed and carriage return. */
  predicate IsWs(c: char) { c == ' ' || c == '\t' || c == '\n' || c == '\r' }

  function SkipWs(t: string): (r: string)
    ensures |r| <= |t|
  {
    if t != "" && IsWs(t[0]) then SkipWs(t[1..]) else t
  }

  /** Section 7: unescaped = %x20-21 / %x23-5B / %x5D-10FFFF. */
  predicate Unescaped(c: char) { c >= ' ' && c != '"' && c != '\\' }

  ghost predicate Clean(s: string) { forall i :: 0 <= i < |s| ==> Unescaped(s[i]) }

  /** Section 7: the escapes of one character. */
  function ShortEscape(c: char): Option<char> {
    if c == '"' || c == '\\' || c == '/' then Some(c)
    else if c == 'b' then Some('\U{0008}')
    else if c == 'f' then Some('\U{000C}')
    else if c == 'n' then Some('\n')
    else if c == 'r' then Some('\r')
    else if c == 't' then Some('\t')
    else None
  }

  function HexDigitValue(c: char): (r: Option<nat>)
    ensures r.Some? ==> r.value < 16 && c >= ' '
  {
    if '0' <= c <= '9' then Some(c as int - '0' as int)
    else if 'a' <= c <= 'f' then Some(c as int - 'a' as int + 10)
    else if 'A' <= c <= 'F' then Some(c as int - 'A' as int + 10)
    else None
  }

  /** 4HEXDIG at the start of a text: a UTF-16 code unit. */
  function CodeUnit(t: string): (r: Option<nat>)
    ensures r.Some? ==> |t| >= 4 && r.value < 0x1_0000 && forall i :: 0 <= i < 4 ==> t[i] >= ' '
  {
    if |t| < 4 then None else
    var a, b, c, d := HexDigitValue(t[0]), HexDigitValue(t[1]), HexDigitValue(t[2]), HexDigitValue(t[3]);
    if a.Some? && b.Some? && c.Some? && d.Some? then
      Some(((a.value * 16 + b.value) * 16 + c.value) * 16 + d.value)
    else None
  }

  /** Behind a backslash and a u: a code unit, or a surrogate pair as two such escapes. */
  function UnicodeEscape(t: string): (r: Parsed<char>)
    ensures r.Parsed? ==> Took(t, r.rest) && |r.rest| < |t|
  {
    match CodeUnit(t)
    case None => Error
    case Some(u) =>
      if u < 0xD800 || u >= 0xE000 then Parsed(u as char, t[4..])
      else if u >= 0xDC00 || |t| < 6 || t[4..6] != "\\u" then Error
      else
        match CodeUnit(t[6..])
        case None => Error
        case Some(w) =>
          if w < 0xDC00 || w >= 0xE000 then Error
          else
            assert forall i :: 6 <= i < 10 ==> t[i] == t[6..][i - 6];
            Parsed((0x1_0000 + (u - 0xD800) * 0x400 + (w - 0xDC00)) as char, t[10..])
  }

  /** What is left after some characters of t, none of them a control character. */
  ghost predicate Took(t: string, rest: string) {
    && |rest| <= |t| && rest == t[|t| - |rest|..]
    && forall i :: 0 <= i < |t| - |rest| ==> t[i] >= ' '
  }

  /** What stands behind a backslash. */
  function ParseEscape(t: string): (r: Parsed<char>)
    ensures r.Parsed? ==> Took(t, r.rest) && |r.rest| < |t|
  {
    if t == "" then Error
    else if t[0] == 'u' then
      match UnicodeEscape(t[1..])
      case Error => Error
      case Parsed(c, rest) =>
        TookMore(t, 1, rest);
        Parsed(c, rest)
    else
      match ShortEscape(t[0])
      case None => Error
      case Some(c) => Parsed(c, t[1..])
  }

  lemma TookMore(t: string, n: nat, rest: string)
    requires n <= |t| && Took(t[n..], rest) && forall i :: 0 <= i < n ==> t[i] >= ' '
    ensures Took(t, rest)
  {
    forall i | n <= i < |t| - |rest| ensures t[i] >= ' ' {
      assert t[i] == t[n..][i - n];
    }
  }

  /** Section 7: char = unescaped / escape ..., up to the closing quotation mark. */
  function ParseChars(t: string): (r: Parsed<string>)
    ensures r.Parsed? ==> |r.rest| < |t|
    decreases |t|
  {
    if t == "" then Error
    else if t[0] == '"' then Parsed("", t[1..])
    else if t[0] == '\\' then
      match ParseEscape(t[1..])
      case Error => Error
      case Parsed(c, u) =>
        match ParseChars(u)
        case Error => Error
        case Parsed(s, rest) => Parsed([c] + s, rest)
    else if !Unescaped(t[0]) then Error
    else
      match ParseChars(t[1..])
      case Error => Error
      case Parsed(s, rest) => Parsed([t[0]] + s, rest)
  }

  function AsText(s: Parsed<string>): Parsed<Value> {
    if s.Parsed? then Parsed(Text(s.value), s.rest) else Error
  }

  function Named(name: string, v: Parsed<Value>): Parsed<Member> {
    if v.Parsed? then Parsed(Member(name, v.value), v.rest) else Error
  }

  /** The digits at the start of a text. */
  function Digits(t: string): (r: string)
    ensures r <= t && AllDigits(r) && (r == "" <==> t == "" || !IsDigit(t[0]))
  {
    if t == "" || !IsDigit(t[0]) then "" else [t[0]] + Digits(t[1..])
  }

  /** Section 6, restricted to int: no leading zeros. */
  function ParseNumber(t: string): (r: Parsed<Value>)
    ensures r.Parsed? ==> |r.rest| < |t|
  {
    var d := Digits(t);
    if d == "" || (d[0] == '0' && |d| > 1) then Error else Parsed(Num(Number(d)), t[|d|..])
  }

  lemma {:induction false} DigitsTaken(d: string, rest: string)
    requires AllDigits(d) && (rest == "" || !IsDigit(rest[0]))
    ensures Digits(d + rest) == d
  {
    if d == "" {
      assert d + rest == rest;
    } else {
      assert (d + rest)[1..] == d[1..] + rest;
      DigitsTaken(d[1..], rest);
    }
  }

  lemma NumberParses(n: nat, rest: string)
    requires rest == "" || !IsDigit(rest[0])
    ensures ParseValue(Decimal(n) + rest) == Parsed(Num(n), rest)
  {
    DecimalWrites(n);
    DigitsTaken(Decimal(n), rest);
  }

  /** Section 3, restricted to strings, whole numbers and objects. */
  function ParseValue(t: string): (r: Parsed<Value>)
    ensures r.Parsed? ==> |r.rest| < |t|
    decreases |t|, 0
  {
    if t == "" then Error
    else if t[0] == '"' then AsText(ParseChars(t[1..]))
    else if t[0] == '{' then
      var u := SkipWs(t[1..]);
      if u != "" && u[0] == '}' then Parsed(Object([]), u[1..])
      else
        match ParseMembers(u)
        case Error => Error
        case Parsed(ms, rest) => Parsed(Object(ms), rest)
    else ParseNumber(t)
  }

  /** Section 4: member = string name-separator value. */
  function ParseMember(t: string): (r: Parsed<Member>)
    ensures r.Parsed? ==> |r.rest| < |t|
    decreases |t|, 0
  {
    if t == "" || t[0] != '"' then Error else
    match ParseChars(t[1..])
    case Error => Error
    case Parsed(name, rest) =>
      var u := SkipWs(rest);
      if u == "" || u[0] != ':' then Error else
      Named(name, ParseValue(SkipWs(u[1..])))
  }

  /** Section 4: member *( value-separator member ) end-object. */
  function ParseMembers(t: string): (r: Parsed<seq<Member>>)
    ensures r.Parsed? ==> |r.rest| < |t|
    decreases |t|, 1
  {
    match ParseMember(t)
    case Error => Error
    case Parsed(m, rest) =>
      var u := SkipWs(rest);
      if u == "" then Error
      else if u[0] == '}' then Parsed([m], u[1..])
      else if u[0] != ',' then Error
      else
        match ParseMembers(SkipWs(u[1..]))
        case Error => Error
        case Parsed(ms, rest') => Parsed([m] + ms, rest')
  }

  /** Section 2: JSON-text = ws value ws. */
  function ParseJson(t: string): (r: Option<Value>) {
    match ParseValue(SkipWs(t))
    case Error => None
    case Parsed(v, rest) => if SkipWs(rest) == "" then Some(v) else None
  }

  function Numbered(payloads: seq<string>, k: nat): (r: seq<Member>)
    ensures |r| == |payloads|
  {
    if payloads == [] then []
    else [Member(Decimal(k), Text(payloads[0]))] + Numbered(payloads[1..], k + 1)
  }

  /** The reply as a JSON value: one object of consecutively numbered payloads. */
  function ReplyValue(payloads: seq<string>): Value {
    Object([Member("Messages", Object(Numbered(payloads, 1)))])
  }

  lemma {:induction false} CharsUpToQuote(s: string, rest: string)
    requires Clean(s)
    ensures ParseChars(s + "\"" + rest) == Parsed(s, rest)
  {
    var t := s + "\"" + rest;
    if s == "" {
      assert t[1..] == rest;
    } else {
      assert t[1..] == s[1..] + "\"" + rest;
      CharsUpToQuote(s[1..], rest);
      assert [s[0]] + s[1..] == s;
    }
  }

  predicate AllWs(w: string) { forall i :: 0 <= i < |w| ==> IsWs(w[i]) }

  lemma {:induction false} SkipPrefix(w: string, t: string)
    requires AllWs(w)
    ensures SkipWs(w + t) == SkipWs(t)
  {
    if w == "" {
      assert w + t == t;
    } else {
      assert (w + t)[1..] == w[1..] + t;
      SkipPrefix(w[1..], t);
    }
  }

  /** A text that begins with a character other than white space. */
  predicate Starts(t: string) { t != "" && !IsWs(t[0]) }

  /** A member is read as its name and what the reader makes of its value. */
  lemma MemberRead(name: string, w: string, v: string)
    requires Clean(name) && AllWs(w) && Starts(v)
    ensures ParseMember("\"" + name + "\"" + (":" + (w + v)))
            == Named(name, ParseValue(v))
  {
    var u := ":" + (w + v);
    assert ("\"" + name + "\"" + u)[1..] == name + "\"" + u;
    CharsUpToQuote(name, u);
    assert u[1..] == w + v;
    SkipPrefix(w, v);
  }

  lemma MemberParses(name: string, w: string, v: string, value: Value, rest: string)
    requires Clean(name) && AllWs(w) && Starts(v)
    requires ParseValue(v) == Parsed(value, rest)
    ensures ParseMember("\"" + name + "\"" + (":" + (w + v))) == Parsed(Member(name, value), rest)
  {
    MemberRead(name, w, v);
  }

  lemma LastMember(t: string, m: Member, w: string, rest: string)
    requires ParseMember(t) == Parsed(m, w + ("}" + rest)) && AllWs(w)
    ensures ParseMembers(t) == Parsed([m], rest)
  {
    SkipPrefix(w, "}" + rest);
    assert ("}" + rest)[1..] == rest;
  }

  lemma MoreMembers(t: string, m: Member, w: string, u: string, ms: seq<Member>, rest: string)
    requires ParseMember(t) == Parsed(m, "," + (w + u)) && AllWs(w)
    requires ParseMembers(SkipWs(u)) == Parsed(ms, rest)
    ensures ParseMembers(t) == Parsed([m] + ms, rest)
  {
    assert ("," + (w + u))[1..] == w + u;
    SkipPrefix(w, u);
  }

  lemma ObjectParses(w: string, u: string, ms: seq<Member>, rest: string)
    requires AllWs(w) && Starts(SkipWs(u)) && SkipWs(u)[0] == '"'
    requires ParseMembers(SkipWs(u)) == Parsed(ms, rest)
    ensures ParseValue("{" + (w + u)) == Parsed(Object(ms), rest)
  {
    assert ("{" + (w + u))[1..] == w + u;
    SkipPrefix(w, u);
  }

  lemma EmptyObjectParses(w: string, rest: string)
    requires AllWs(w)
    ensures ParseValue("{" + (w + ("}" + rest))) == Parsed(Object([]), rest)
  {
    assert ("{" + (w + ("}" + rest)))[1..] == w + ("}" + rest);
    SkipPrefix(w, "}" + rest);
    assert ("}" + rest)[1..] == rest;
  }

  function ItemMember(k: nat, payload: string): string {
    "\"" + Decimal(k) + "\"" + (":" + (" " + ("\"" + payload + "\"")))
  }

  lemma ItemSplit(k: nat, payload: string)
    ensures Item(k, payload) == "\t\t" + ItemMember(k, payload)
  {
    assert "\t\t\"" == "\t\t" + "\"";
    assert "\": \"" == "\"" + ":" + " " + "\"";
  }

  lemma ItemMemberSplit(k: nat, payload: string, rest: string)
    ensures ItemMember(k, payload) + rest
            == "\"" + Decimal(k) + "\"" + (":" + (" " + ("\"" + (payload + "\"" + rest))))
  {
  }

  /** The line of one item as read by ParseMember: its number, and what the reader makes of the
      payload. */
  lemma {:induction false} ItemRead(k: nat, payload: string, rest: string)
    ensures SkipWs(Item(k, payload) + rest) == ItemMember(k, payload) + rest
    ensures ParseMember(ItemMember(k, payload) + rest)
            == Named(Decimal(k), AsText(ParseChars(payload + "\"" + rest)))
  {
    ItemSkipped(k, payload, rest);
    ItemMemberSplit(k, payload, rest);
    TextRead(k, payload + "\"" + rest);
  }

  lemma {:induction false} ItemSkipped(k: nat, payload: string, rest: string)
    ensures SkipWs(Item(k, payload) + rest) == ItemMember(k, payload) + rest
  {
    ItemSplit(k, payload);
    var m := ItemMember(k, payload) + rest;
    assert Item(k, payload) + rest == "\t\t" + m;
    SkipPrefix("\t\t", m);
  }

  lemma {:induction false} TextRead(k: nat, chars: string)
    ensures ParseMember("\"" + Decimal(k) + "\"" + (":" + (" " + ("\"" + chars))))
            == Named(Decimal(k), AsText(ParseChars(chars)))
  {
    MemberRead(Decimal(k), " ", "\"" + chars);
    assert ("\"" + chars)[1..] == chars;
  }

  /** A clean item is read as one numbered member. */
  lemma ItemParses(k: nat, payload: string, rest: string)
    requires Clean(payload)
    ensures SkipWs(Item(k, payload) + rest) == ItemMember(k, payload) + rest
    ensures ParseMember(ItemMember(k, payload) + rest) == Parsed(Member(Decimal(k), Text(payload)), rest)
  {
    ItemRead(k, payload, rest);
    CharsUpToQuote(payload, rest);
  }

  lemma JoinSplit(payloads: seq<string>, k: nat, close: string)
    requires |payloads| > 1
    ensures Join(payloads, k) + close == Item(k, payloads[0]) + ("," + ("\n" + (Join(payloads[1..], k + 1) + close)))
  {
    assert ",\n" == "," + "\n";
  }

  lemma {:induction false} JoinParses(payloads: seq<string>, k: nat, rest: string)
    requires payloads != [] && forall p :: p in payloads ==> Clean(p)
    ensures var t := SkipWs(Join(payloads, k) + ("\n\t" + ("}" + rest)));
            Starts(t) && t[0] == '"' && ParseMembers(t) == Parsed(Numbered(payloads, k), rest)
    decreases |payloads|
  {
    if |payloads| == 1 {
      LastItemParses(payloads, k, rest);
    } else {
      JoinParses(payloads[1..], k + 1, rest);
      FirstItemParses(payloads, k, rest);
    }
  }

  lemma LastItemParses(payloads: seq<string>, k: nat, rest: string)
    requires |payloads| == 1 && Clean(payloads[0])
    ensures var t := SkipWs(Join(payloads, k) + ("\n\t" + ("}" + rest)));
            Starts(t) && t[0] == '"' && ParseMembers(t) == Parsed(Numbered(payloads, k), rest)
  {
    var close := "\n\t" + ("}" + rest);
    var m := Member(Decimal(k), Text(payloads[0]));
    ItemParses(k, payloads[0], close);
    LastMember(ItemMember(k, payloads[0]) + close, m, "\n\t", rest);
    assert Numbered(payloads[1..], k + 1) == [];
    assert Numbered(payloads, k) == [m];
  }

  lemma FirstItemParses(payloads: seq<string>, k: nat, rest: string)
    requires |payloads| > 1 && Clean(payloads[0])
    requires ParseMembers(SkipWs(Join(payloads[1..], k + 1) + ("\n\t" + ("}" + rest))))
             == Parsed(Numbered(payloads[1..], k + 1), rest)
    ensures var t := SkipWs(Join(payloads, k) + ("\n\t" + ("}" + rest)));
            Starts(t) && t[0] == '"' && ParseMembers(t) == Parsed(Numbered(payloads, k), rest)
  {
    var close := "\n\t" + ("}" + rest);
    var head, m := Item(k, payloads[0]), Member(Decimal(k), Text(payloads[0]));
    var u := Join(payloads[1..], k + 1) + close;
    var sep := "," + ("\n" + u);
    JoinSplit(payloads, k, close);
    ItemParses(k, payloads[0], sep);
    MoreMembers(ItemMember(k, payloads[0]) + sep, m, "\n", u, Numbered(payloads[1..], k + 1), rest);
  }

  lemma CleanReplyParses(payloads: seq<string>)
    requires forall p :: p in payloads ==> Clean(p)
    ensures ParseJson(ReplyText(payloads)) == Some(ReplyValue(payloads))
    ensures ReadsAs(ReplyText(payloads), payloads)
  {
    ReplyValueLists(payloads);
    var tail := "\n" + ("}" + "\n\r\n\r");
    var inner := "{" + ("\n" + (Join(payloads, 1) + ("\n\t" + ("}" + tail))));
    var member := "\"" + "Messages" + "\"" + (":" + ("\n\t" + inner));
    var v := Object(Numbered(payloads, 1));
    ReplySplit(payloads);
    InnerParses(payloads, tail);
    MemberParses("Messages", "\n\t", inner, v, tail);
    LastMember(member, Member("Messages", v), "\n", "\n\r\n\r");
    OuterParses(member, v);
  }

  lemma InnerParses(payloads: seq<string>, tail: string)
    requires forall p :: p in payloads ==> Clean(p)
    ensures ParseValue("{" + ("\n" + (Join(payloads, 1) + ("\n\t" + ("}" + tail)))))
            == Parsed(Object(Numbered(payloads, 1)), tail)
  {
    var body := Join(payloads, 1) + ("\n\t" + ("}" + tail));
    if payloads == [] {
      assert body == "\n\t" + ("}" + tail);
      assert "\n" + body == "\n\n\t" + ("}" + tail);
      EmptyObjectParses("\n\n\t", tail);
    } else {
      JoinParses(payloads, 1, tail);
      ObjectParses("\n", body, Numbered(payloads, 1), tail);
    }
  }

  lemma OuterParses(member: string, v: Value)
    requires Starts(member) && member[0] == '"'
    requires ParseMembers(member) == Parsed([Member("Messages", v)], "\n\r\n\r")
    ensures ParseJson("{" + ("\n\t" + member)) == Some(Object([Member("Messages", v)]))
  {
    ObjectParses("\n\t", member, [Member("Messages", v)], "\n\r\n\r");
    SkipPrefix("\n\r\n\r", "");
    assert "\n\r\n\r" + "" == "\n\r\n\r";
  }

  lemma ReplySplit(payloads: seq<string>)
    ensures var tail := "\n" + ("}" + "\n\r\n\r");
            var inner := "{" + ("\n" + (Join(payloads, 1) + ("\n\t" + ("}" + tail))));
            ReplyText(payloads) == "{" + ("\n\t" + ("\"" + "Messages" + "\"" + (":" + ("\n\t" + inner))))
  {
    HeaderSplit();
    TrailerSplit();
    Regroup("{", "\n\t", "\"" + "Messages" + "\"", ":", "\n\t", "{", "\n", Join(payloads, 1), TRAILER);
  }

  lemma HeaderSplit()
    ensures HEADER == "{" + "\n\t" + ("\"" + "Messages" + "\"") + ":" + "\n\t" + "{" + "\n"
  {
  }

  lemma TrailerSplit()
    ensures TRAILER == "\n\t" + ("}" + ("\n" + ("}" + "\n\r\n\r")))
  {
  }

  lemma Regroup(a: string, b: string, c: string, d: string, e: string, f: string, g: string, h: string, i: string)
    ensures (a + b + c + d + e + f + g) + h + i == a + (b + (c + (d + (e + (f + (g + (h + i)))))))
  {
    var x := g + (h + i);
    assert (a + b + c + d + e + f + g) + h + i == (a + b + c + d + e + f) + x;
    assert (a + b + c + d + e + f) + x == (a + b + c) + (d + (e + (f + x)));
  }

  // ---- and only clean payloads are recovered ------------------------------------------------

  /** A string takes at least one character more than it stands for, the last a quotation mark
      and none a control character, and more than one more if there is an escape in it. */
  ghost predicate Taken(t: string, v: string, rest: string) {
    && Took(t, rest) && |v| + 1 + |rest| <= |t|
    && t[|t| - |rest| - 1] == '"'
    && (|v| + 1 + |rest| == |t| ==> Clean(v))
  }

  lemma {:induction false} CharsTaken(t: string)
    requires ParseChars(t).Parsed?
    ensures Taken(t, ParseChars(t).value, ParseChars(t).rest)
    decreases |t|
  {
    var rest := ParseChars(t).rest;
    if t[0] == '\\' {
      var e := ParseEscape(t[1..]);
      CharsTaken(e.rest);
      TakenEscape(t, e.rest, e.value, ParseChars(e.rest).value, rest);
    } else if t[0] != '"' {
      CharsTaken(t[1..]);
      TakenChar(t, ParseChars(t[1..]).value, rest);
    }
  }

  lemma TakenChar(t: string, v: string, rest: string)
    requires t != "" && Unescaped(t[0]) && Taken(t[1..], v, rest)
    ensures Taken(t, [t[0]] + v, rest)
  {
    TookMore(t, 1, rest);
  }

  lemma TakenEscape(t: string, u: string, c: char, v: string, rest: string)
    requires t != "" && t[0] == '\\' && Took(t[1..], u) && |u| + 1 < |t| && Taken(u, v, rest)
    ensures Taken(t, [c] + v, rest)
  {
    TookMore(t, 1, u);
    TookMore(t, |t| - |u|, rest);
    assert t[|t| - |rest| - 1] == u[|u| - |rest| - 1];
  }

  /** A payload in front of the end of its line is read as itself only if it is clean: an
      escape in it stands for fewer characters than it takes, and there is no second quotation
      mark on the line to end a longer string. */
  lemma ReadAsItself(p: string, sep: string, behind: string)
    requires sep == "" || sep == ","
    requires var r := ParseChars(p + "\"" + (sep + ("\n" + behind))); r.Parsed? && r.value == p
    ensures Clean(p)
  {
    var t := p + "\"" + (sep + ("\n" + behind));
    CharsTaken(t);
    var end := |t| - |ParseChars(t).rest|;
    assert t[|p| + 1 + |sep|] == '\n';
    assert end <= |p| + 1 + |sep|;
    assert sep == "," ==> t[|p| + 1] == ',';
    assert end == |p| + 1;
  }

  lemma {:induction false} JoinRecovered(payloads: seq<string>, k: nat, rest: string)
    requires payloads != []
    requires var r := ParseMembers(SkipWs(Join(payloads, k) + ("\n\t" + ("}" + rest))));
             r.Parsed? && r.value == Numbered(payloads, k)
    ensures forall p :: p in payloads ==> Clean(p)
    decreases |payloads|
  {
    if |payloads| == 1 {
      var behind := "\t" + ("}" + rest);
      assert "" + ("\n" + behind) == "\n\t" + ("}" + rest);
      FirstRecovered(payloads, k, "", behind);
    } else {
      var u := Join(payloads[1..], k + 1) + ("\n\t" + ("}" + rest));
      JoinSplit(payloads, k, "\n\t" + ("}" + rest));
      FirstRecovered(payloads, k, ",", u);
      RestRecovered(payloads, k, u);
      JoinRecovered(payloads[1..], k + 1, rest);
    }
  }

  lemma RestRecovered(payloads: seq<string>, k: nat, u: string)
    requires |payloads| > 1
    requires var t := SkipWs(Item(k, payloads[0]) + ("," + ("\n" + u)));
             && ParseMembers(t).Parsed? && ParseMembers(t).value == Numbered(payloads, k)
             && ParseMember(t).Parsed? && ParseMember(t).rest == "," + ("\n" + u)
    ensures ParseMembers(SkipWs(u)).Parsed? && ParseMembers(SkipWs(u)).value == Numbered(payloads[1..], k + 1)
  {
    var t := SkipWs(Item(k, payloads[0]) + ("," + ("\n" + u)));
    assert ("," + ("\n" + u))[1..] == "\n" + u;
    SkipPrefix("\n", u);
    assert ParseMembers(t).value[1..] == ParseMembers(SkipWs(u)).value;
  }

  lemma FirstRecovered(payloads: seq<string>, k: nat, sep: string, behind: string)
    requires payloads != [] && (sep == "" || sep == ",")
    requires var r := ParseMembers(SkipWs(Item(k, payloads[0]) + (sep + ("\n" + behind))));
             r.Parsed? && r.value == Numbered(payloads, k)
    ensures Clean(payloads[0])
    ensures var m := ParseMember(SkipWs(Item(k, payloads[0]) + (sep + ("\n" + behind))));
            m.Parsed? && m.rest == sep + ("\n" + behind)
  {
    var line := sep + ("\n" + behind);
    var text := payloads[0] + "\"" + line;
    ItemRead(k, payloads[0], line);
    var m := ParseMember(ItemMember(k, payloads[0]) + line);
    assert m.Parsed? && m.value == Numbered(payloads, k)[0];
    ReadAsItself(payloads[0], sep, behind);
    CharsUpToQuote(payloads[0], line);
  }

  lemma {:induction false} NumberedAt(payloads: seq<string>, k: nat, i: nat)
    requires i < |payloads|
    ensures Numbered(payloads, k)[i] == Member(Decimal(k + i), Text(payloads[i]))
    decreases |payloads|
  {
    if i > 0 {
      assert k + i == (k + 1) + (i - 1);
      NumberedAt(payloads[1..], k + 1, i - 1);
    }
  }

  /** The value is one object "Messages" whose i-th member has the number i + 1 for its name, and
      the i-th payload for its value. */
  ghost predicate Lists(v: Value, payloads: seq<string>) {
    && v.Object? && |v.members| == 1 && v.members[0].name == "Messages" && v.members[0].value.Object?
    && var ms := v.members[0].value.members;
    && |ms| == |payloads|
    && forall i :: 0 <= i < |ms| ==> Writes(ms[i].name, i + 1) && ms[i].value == Text(payloads[i])
  }

  lemma ReplyValueLists(payloads: seq<string>)
    ensures Lists(ReplyValue(payloads), payloads)
  {
    var ms := Numbered(payloads, 1);
    forall i | 0 <= i < |ms| ensures Writes(ms[i].name, i + 1) && ms[i].value == Text(payloads[i]) {
      NumberedAt(payloads, 1, i);
      DecimalWrites(i + 1);
    }
  }

  lemma OnlyReplyValueLists(v: Value, payloads: seq<string>)
    requires Lists(v, payloads)
    ensures v == ReplyValue(payloads)
  {
    var ms := v.members[0].value.members;
    forall i | 0 <= i < |ms| ensures ms[i] == Numbered(payloads, 1)[i] {
      NumberedAt(payloads, 1, i);
      OnlyDecimalWrites(ms[i].name, i + 1);
    }
    assert ms == Numbered(payloads, 1);
    assert v.members == [Member("Messages", Object(ms))];
  }

  /** What a reader makes of a text is this list. */
  ghost predicate ReadsAs(text: string, payloads: seq<string>) {
    ParseJson(text).Some? && Lists(ParseJson(text).value, payloads)
  }

  /** A reader of the reply recovers exactly the list of payloads, numbered from 1, if and only
      if no payload holds a quotation mark, a backslash or a control character. */
  lemma ReplyRecoverableIff(payloads: seq<string>)
    ensures ReadsAs(ReplyText(payloads), payloads) <==> forall p :: p in payloads ==> Clean(p)
  {
    if forall p :: p in payloads ==> Clean(p) {
      CleanReplyParses(payloads);
      ReplyValueLists(payloads);
    }
    if ReadsAs(ReplyText(payloads), payloads) && payloads != [] {
      OnlyReplyValueLists(ParseJson(ReplyText(payloads)).value, payloads);
      MessagesRead(payloads);
      var tail := "\n" + ("}" + "\n\r\n\r");
      JoinRecovered(payloads, 1, tail);
    }
  }

  /** What the reader makes of the reply comes from the joined items. */
  lemma MessagesRead(payloads: seq<string>)
    requires payloads != [] && ParseJson(ReplyText(payloads)) == Some(ReplyValue(payloads))
    ensures var tail := "\n" + ("}" + "\n\r\n\r");
            var r := ParseMembers(SkipWs(Join(payloads, 1) + ("\n\t" + ("}" + tail))));
            r.Parsed? && r.value == Numbered(payloads, 1)
  {
    var tail := "\n" + ("}" + "\n\r\n\r");
    var body := Join(payloads, 1) + ("\n\t" + ("}" + tail));
    var inner := "{" + ("\n" + body);
    var member := "\"" + "Messages" + "\"" + (":" + ("\n\t" + inner));
    ReplySplit(payloads);
    OuterRead(member);
    assert ParseMember(member).value == Member("Messages", Object(Numbered(payloads, 1)));
    MemberRead("Messages", "\n\t", inner);
    assert ParseValue(inner).value == Object(Numbered(payloads, 1));
    InnerRead(payloads, body);
  }

  lemma OuterRead(member: string)
    requires Starts(member) && member[0] == '"'
    requires var v := ParseJson("{" + ("\n\t" + member)); v.Some? && v.value.Object? && |v.value.members| == 1
    ensures ParseMember(member).Parsed?
    ensures ParseMember(member).value == ParseJson("{" + ("\n\t" + member)).value.members[0]
  {
    var t := "{" + ("\n\t" + member);
    assert t[1..] == "\n\t" + member;
    SkipPrefix("\n\t", member);
    assert SkipWs(t) == t && ParseMembers(member).Parsed?;
  }

  lemma {:induction false} InnerRead(payloads: seq<string>, body: string)
    requires payloads != [] && Join(payloads, 1) <= body && ParseValue("{" + ("\n" + body)).Parsed?
    ensures ParseMembers(SkipWs(body)).Parsed?
    ensures ParseValue("{" + ("\n" + body)).value == Object(ParseMembers(SkipWs(body)).value)
  {
    var t := "{" + ("\n" + body);
    assert t[1..] == "\n" + body;
    SkipPrefix("\n", body);
    JoinStarts(payloads, body);
    SkipPrefix("\t\t", body[2..]);
  }

  lemma {:induction false} JoinStarts(payloads: seq<string>, body: string)
    requires payloads != [] && Join(payloads, 1) <= body
    ensures |body| > 2 && body == "\t\t" + body[2..] && body[2] == '"'
  {
    ItemSplit(1, payloads[0]);
    assert Item(1, payloads[0]) <= Join(payloads, 1);
    assert body[..2] == "\t\t";
  }

  /** Hence two different lists of clean payloads never give the same reply. */
  lemma ReplyInjective(a: seq<string>, b: seq<string>)
    requires forall p :: p in a + b ==> Clean(p)
    requires ReplyText(a) == ReplyText(b)
    ensures a == b
  {
    assert forall p :: p in a ==> p in a + b;
    assert forall p :: p in b ==> p in a + b;
    CleanReplyParses(a);
    CleanReplyParses(b);
    assert Numbered(a, 1) == Numbered(b, 1);
    forall i | 0 <= i < |a| ensures a[i] == b[i] {
      NumberedAt(a, 1, i);
      NumberedAt(b, 1, i);
    }
  }

  /** Clean or not, each payload stands in the reply as it is, on a line with its number. */
  lemma {:induction false} ReplyHoldsVerbatim(payloads: seq<string>, i: nat)
    returns (before: string, number: string, after: string)
    requires i < |payloads|
    ensures Writes(number, i + 1)
    ensures ReplyText(payloads) == before + ("\"" + number + "\": \"" + payloads[i] + "\"") + after
  {
    number := Decimal(i + 1);
    DecimalWrites(i + 1);
    var first, last := JoinAt(payloads, 1, i);
    before, after := HEADER + (first + "\t\t"), last + TRAILER;
    var line := "\"" + number + "\": \"" + payloads[i] + "\"";
    assert Item(i + 1, payloads[i]) == "\t\t" + line by { assert "\t\t\"" == "\t\t" + "\""; }
    assert first + ("\t\t" + line) + last == (first + "\t\t") + line + last;
    Grouped(HEADER, first + "\t\t", line, last, TRAILER);
  }

  lemma Grouped(a: string, b: string, c: string, d: string, e: string)
    ensures a + (b + c + d) + e == (a + b) + c + (d + e)
  {
  }

  lemma {:induction false} JoinAt(payloads: seq<string>, k: nat, i: nat) returns (first: string, last: string)
    requires i < |payloads|
    ensures Join(payloads, k) == first + Item(k + i, payloads[i]) + last
    decreases |payloads|
  {
    if |payloads| == 1 {
      first, last := "", "";
    } else if i == 0 {
      first, last := "", ",\n" + Join(payloads[1..], k + 1);
    } else {
      var head, f := Item(k, payloads[0]) + ",\n", "";
      f, last := JoinAt(payloads[1..], k + 1, i - 1);
      first := head + f;
      var item := Item(k + i, payloads[i]);
      assert Join(payloads, k) == head + Join(payloads[1..], k + 1);
      assert Join(payloads[1..], k + 1) == f + item + last by { assert (k + 1) + (i - 1) == k + i; }
      Grouped(head, f, item, last, "");
      assert head + (f + item + last) + "" == head + (f + item + last);
      assert (head + f) + item + (last + "") == (head + f) + item + last by { assert last + "" == last; }
    }
  }

  // ---- the reply to a SET ---------------------------------------------------------------------

  /** resultCode. */
  function ResultText(code: nat): string { "{ \"ResultCode\": " + Decimal(code) + " }" }

  /** The code that a reader finds in a reply. */
  function CodeIn(text: string): Option<nat> {
    match ParseJson(text)
    case None => None
    case Some(v) =>
      if v.Object? && |v.members| == 1 && v.members[0].name == "ResultCode" && v.members[0].value.Num? then
        Some(v.members[0].value.number)
      else None
  }

  lemma ResultReads(code: nat)
    ensures CodeIn(ResultText(code)) == Some(code)
  {
    var v := Decimal(code) + (" " + ("}" + ""));
    var member := "\"" + "ResultCode" + "\"" + (":" + (" " + v));
    ResultSplit(code);
    DecimalWrites(code);
    NumberParses(code, " " + ("}" + ""));
    MemberParses("ResultCode", " ", v, Num(code), " " + ("}" + ""));
    LastMember(member, Member("ResultCode", Num(code)), " ", "");
    ObjectParses(" ", member, [Member("ResultCode", Num(code))], "");
  }

  lemma ResultSplit(code: nat)
    ensures ResultText(code)
            == "{" + (" " + ("\"" + "ResultCode" + "\"" + (":" + (" " + (Decimal(code) + (" " + ("}" + "")))))))
  {
    var d := Decimal(code);
    assert "{ \"ResultCode\": " == "{" + " " + ("\"" + "ResultCode" + "\"") + ":" + " ";
    assert " }" == " " + ("}" + "");
  }
}
