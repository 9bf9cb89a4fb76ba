/**
  The streaming reader of one JSON string value. `Unescape` is what the string means
  when read in one go; `StringReader.Read` delivers it through buffers of any size.
*/
module JsonString {
  import opened Basics
  import opened ByteStream
  import Utf8

  // ---------------------------------------------------------------- specification

  /** The value of a hexadecimal digit, or -1. */
  function HexDigit(c: char): (d: int)
    ensures -1 <= d < 16
  {
    if '0' <= c <= '9' then c as int - '0' as int
    else if 'a' <= c <= 'f' then c as int - 'a' as int + 10
    else if 'A' <= c <= 'F' then c as int - 'A' as int + 10
    else -1
  }

  /** The value of the first `n` bytes read as hexadecimal digits, or -1. */
  function Hex(s: string, n: nat): (v: int)
    ensures -1 <= v
    ensures v >= 0 ==> n <= |s|
  {
    if n == 0 then 0
    else if n > |s| then -1
    else
      var hi, d := Hex(s, n - 1), HexDigit(s[n - 1]);
      if hi < 0 || d < 0 then -1 else hi * 16 + d
  }

  lemma Hex4Range(s: string)
    ensures Hex(s, 4) < 0x10000
  {
    assert Hex(s, 1) < 0x10;
    assert Hex(s, 2) < 0x100;
    assert Hex(s, 3) < 0x1000;
  }

  /** One step of a string: the closing quote, some output, or an error. */
  datatype Token = Close | Output(text: string, used: nat) | Reject(error: ParseError)

  /** The escape whose backslash has just been read; `used` counts the bytes after it. */
  function Escape(s: string): (t: Token)
    ensures !t.Close?
    ensures t.Output? ==> 1 <= t.used <= |s|
  {
    if |s| == 0 then Reject(BadString)
    else match s[0]
      case '"' => Output("\"", 1)
      case '\\' => Output("\\", 1)
      case '/' => Output("/", 1)
      case 'b' => Output([8 as char], 1)
      case 'f' => Output([12 as char], 1)
      case 'n' => Output("\n", 1)
      case 'r' => Output("\r", 1)
      case 't' => Output("\t", 1)
      case 'u' =>
        (match UnicodeEscape(s[1..])
         case Output(o, used) => Output(o, used + 1)
         case other => other)
      case _ => Reject(BadString)
  }

  predicate High(r: int) { 0xD800 <= r <= 0xDBFF }

  predicate Low(r: int) { 0xDC00 <= r <= 0xDFFF }

  /** The code point a surrogate pair stands for. */
  function Combine(hi: int, lo: int): int {
    0x10000 + (hi - 0xD800) * 1024 + (lo - 0xDC00)
  }

  function UnicodeEscape(s: string): (t: Token)
    ensures !t.Close?
    ensures t.Output? ==> 4 <= t.used <= |s|
  {
    Hex4Range(s);
    var r1 := Hex(s, 4);
    if r1 < 0 then Reject(BadString)
    else if High(r1) then
      if |s| < 6 || s[4] != '\\' || s[5] != 'u' then Reject(BadString)
      else
        var r2 := Hex(s[6..], 4);
        if Low(r2) then Output(Utf8.EncodeRune(Combine(r1, r2)), 10)
        else Reject(BadString)
    else if Low(r1) then Reject(BadString)
    else Output(Utf8.EncodeRune(r1), 4)
  }

  function NextToken(s: string, ending: Ending): (t: Token)
    ensures t.Output? ==> 1 <= t.used <= |s|
    ensures t.Close? ==> |s| > 0
  {
    if |s| == 0 then Reject(if ending == Eof then BadString else Transport)
    else if s[0] == '"' then Close
    else if s[0] == '\\' then
      match Escape(s[1..])
      case Output(o, used) => Output(o, used + 1)
      case other => other
    else Output(s[..1], 1)
  }

  /** How a string ends: at its quote, with `rest` behind it, or in an error. */
  datatype End = Closed(rest: string) | Broken(error: ParseError)

  /** A string as a whole: all the bytes it yields, then how it ends. */
  datatype Text = Text(out: string, end: End)

  /** The string that starts just behind an opening quote, unescaped in one go. */
  function Unescape(s: string, ending: Ending): (t: Text)
    ensures t.end.Closed? ==> |t.end.rest| < |s|
    decreases |s|
  {
    match NextToken(s, ending)
    case Close => Text("", Closed(s[1..]))
    case Reject(e) => Text("", Broken(e))
    case Output(o, used) =>
      var t := Unescape(s[used..], ending);
      Text(o + t.out, t.end)
  }

  // ---------------------------------------------------------------- the reader

  /** What one `Read` reports beside its bytes. */
  datatype ReadEnd = More | AtEnd | Fault(error: ParseError)

  /** A read of `k` bytes: the string's next bytes, and an ending only on a short read. */
  function ReadEndOf(t: Text, k: nat): ReadEnd {
    if k == 0 || k <= |t.out| then More
    else match t.end
      case Broken(e) => Fault(e)
      case Closed(_) => if |t.out| == 0 then AtEnd else More
  }

  /** A read with room for `k` bytes of `was` returned `got` and `end`, and left `now`. */
  ghost predicate Delivered(was: Text, k: nat, got: string, end: ReadEnd, now: Text) {
    && got == was.out[..Min(k, |was.out|)]
    && end == ReadEndOf(was, k)
    && (!end.Fault? ==> now == Text(was.out[|got|..], was.end))
  }

  /** `was` is the bytes in `filled`, then those in `pending`, then what `rest` holds. */
  ghost predicate Split(was: Text, filled: string, pending: string, rest: string, ending: Ending) {
    var t := Unescape(rest, ending);
    was == Text(filled + pending + t.out, t.end)
  }

  lemma PlainKeeps(was: Text, filled: string, s: string, ending: Ending)
    requires Split(was, filled, "", s, ending)
    requires |s| > 0 && s[0] != '"' && s[0] != '\\'
    ensures Split(was, filled + s[..1], "", s[1..], ending)
  {
    var t := Unescape(s[1..], ending);
    assert Unescape(s, ending) == Text(s[..1] + t.out, t.end);
    assert filled + "" + (s[..1] + t.out) == filled + s[..1] + "" + t.out;
  }

  lemma EscapeKeeps(was: Text, filled: string, s: string, ending: Ending, placed: string, left: string)
    requires Split(was, filled, "", s, ending)
    requires |s| > 0 && s[0] == '\\' && Escape(s[1..]).Output? && Escape(s[1..]).text == placed + left
    ensures Split(was, filled + placed, left, s[1..][Escape(s[1..]).used..], ending)
  {
    var e := Escape(s[1..]);
    var t := Unescape(s[1..][e.used..], ending);
    assert s[1..][e.used..] == s[e.used + 1..];
    assert NextToken(s, ending) == Output(e.text, e.used + 1);
    assert filled + "" + ((placed + left) + t.out) == filled + placed + left + t.out;
  }

  lemma CloseDelivers(was: Text, k: nat, filled: string, s: string, ending: Ending)
    requires Split(was, filled, "", s, ending)
    requires |s| > 0 && s[0] == '"' && |filled| < k
    ensures Delivered(was, k, filled, if |filled| > 0 then More else AtEnd, Text("", Closed(s[1..])))
  {
    assert filled + "" + "" == filled;
  }

  lemma Regroup(a: string, b: string, c: string)
    ensures a + b + c == a + (b + c)
  {
  }

  lemma FullDelivers(was: Text, filled: string, pending: string, rest: string, ending: Ending)
    requires Split(was, filled, pending, rest, ending)
    ensures var t := Unescape(rest, ending);
            Delivered(was, |filled|, filled, More, Text(pending + t.out, t.end))
  {
    Regroup(filled, pending, Unescape(rest, ending).out);
  }

  lemma RejectDelivers(was: Text, k: nat, filled: string, s: string, ending: Ending, now: Text)
    requires Split(was, filled, "", s, ending)
    requires NextToken(s, ending).Reject? && |filled| < k
    ensures Delivered(was, k, filled, Fault(NextToken(s, ending).error), now)
  {
    assert filled + "" + "" == filled;
  }

  class StringReader {
    const br: Reader
    var done: bool
    var pending: string

    ghost predicate Valid()
      reads this, br
    {
      br.Valid() && (done ==> pending == "")
    }

    /** Everything still to be delivered. */
    ghost function Stream(): Text
      reads this, br
      requires Valid()
    {
      if done then Text("", Closed(br.Rest()))
      else
        var t := Unescape(br.Rest(), br.ending);
        Text(pending + t.out, t.end)
    }

    constructor (br: Reader)
      requires br.Valid()
      ensures Valid() && this.br == br && fresh(this)
      ensures Stream() == Unescape(br.Rest(), br.ending)
    {
      this.br, this.done, this.pending := br, false, "";
      new;
      assert "" + Unescape(br.Rest(), br.ending).out == Unescape(br.Rest(), br.ending).out;
    }

    method ReadHex4() returns (v: int)
      requires Valid()
      modifies br
      ensures br.Valid()
      ensures v == Hex(old(br.Rest()), 4)
      ensures v >= 0 ==> br.Rest() == old(br.Rest())[4..]
    {
      ghost var s := br.Rest();
      v := 0;
      for i := 0 to 4
        invariant br.Valid() && i <= |s| && br.Rest() == s[i..]
        invariant v == Hex(s, i) && v >= 0
      {
        var b := br.ReadByte();
        if b.None? {
          ShortHex(s, i, 4);
          return -1;
        }
        var d := HexDigit(b.value);
        assert b.value == s[i];
        if d < 0 {
          ShortHex(s, i + 1, 4);
          return -1;
        }
        v := v * 16 + d;
      }
    }

    method ReadUnicodeEscape() returns (out: string, ok: bool)
      requires Valid()
      modifies br
      ensures br.Valid()
      ensures match UnicodeEscape(old(br.Rest()))
              case Output(o, used) => ok && out == o && br.Rest() == old(br.Rest())[used..]
              case _ => !ok
    {
      ghost var s := br.Rest();
      var r1 := ReadHex4();
      Hex4Range(s);
      if r1 < 0 {
        return "", false;
      }
      if 0xD800 <= r1 <= 0xDBFF {
        var b := br.ReadByte();
        if b != Some('\\') {
          return "", false;
        }
        b := br.ReadByte();
        if b != Some('u') {
          return "", false;
        }
        assert br.Rest() == s[6..];
        var r2 := ReadHex4();
        if r2 < 0 || r2 < 0xDC00 || r2 > 0xDFFF {
          return "", false;
        }
        return Utf8.EncodeRune(0x10000 + (r1 - 0xD800) * 1024 + (r2 - 0xDC00)), true;
      }
      if 0xDC00 <= r1 <= 0xDFFF {
        return "", false;
      }
      return Utf8.EncodeRune(r1), true;
    }

    method ReadEscape() returns (out: string, ok: bool)
      requires Valid()
      modifies br
      ensures br.Valid()
      ensures match Escape(old(br.Rest()))
              case Output(o, used) => ok && out == o && br.Rest() == old(br.Rest())[used..]
              case _ => !ok
    {
      var c := br.ReadByte();
      if c.None? {
        return "", false;
      }
      match c.value
      case '"' => return "\"", true;
      case '\\' => return "\\", true;
      case '/' => return "/", true;
      case 'b' => return [8 as char], true;
      case 'f' => return [12 as char], true;
      case 'n' => return "\n", true;
      case 'r' => return "\r", true;
      case 't' => return "\t", true;
      case 'u' => out, ok := ReadUnicodeEscape();
      case _ => return "", false;
    }

    /** Deliver the next bytes of the string into `p`. */
    method Read(p: array<char>) returns (n: nat, end: ReadEnd)
      requires Valid()
      modifies this, br, p
      ensures Valid() && n <= p.Length
      ensures Delivered(old(Stream()), p.Length, p[..n], end, Stream())
      ensures end == AtEnd ==> done
      ensures forall i :: n <= i < p.Length ==> p[i] == old(p[i])
    {
      ghost var was := Stream();
      if p.Length == 0 {
        return 0, More;
      }
      n := Drain(p);
      end := More;
      if n < p.Length && done {
        end := if n > 0 then More else AtEnd;
      } else {
        Regroup(p[..n], pending, Unescape(br.Rest(), br.ending).out);
        var stop := false;
        while n < p.Length && !stop
          invariant n <= p.Length && (end != More ==> stop) && (end == AtEnd ==> done)
          invariant if stop then Valid() && Delivered(was, p.Length, p[..n], end, Stream()) else Midway(was, p, n)
          invariant forall i :: n <= i < p.Length ==> p[i] == old(p[i])
          decreases if stop then 0 else |br.Rest()| + 1
        {
          n, stop, end := Step(p, n, was);
        }
        if !stop {
          FullDelivers(was, p[..n], pending, br.Rest(), br.ending);
        }
      }
    }

    /** The state of `Read` between two tokens: `was` is what `p` holds plus what is to come. */
    ghost predicate Midway(was: Text, p: array<char>, n: nat)
      reads this, br, p
    {
      && Valid() && !done && n <= p.Length
      && (n < p.Length ==> pending == "")
      && Split(was, p[..n], pending, br.Rest(), br.ending)
    }

    /** The body of the loop in `Read`: one token of the source. */
    method Step(p: array<char>, n: nat, ghost was: Text) returns (m: nat, stop: bool, end: ReadEnd)
      requires Midway(was, p, n) && n < p.Length
      modifies this, br, p
      ensures Valid() && n <= m <= p.Length
      ensures if stop then Delivered(was, p.Length, p[..m], end, Stream())
              else Midway(was, p, m) && end == More && |br.Rest()| < |old(br.Rest())|
      ensures (end != More ==> stop) && (end == AtEnd ==> done)
      ensures forall i :: m <= i < p.Length ==> p[i] == old(p[i])
    {
      ghost var s, filled := br.Rest(), p[..n];
      var b := br.ReadByte();
      if b.None? {
        RejectDelivers(was, p.Length, filled, s, br.ending, Stream());
        return n, true, Fault(if br.ending == Eof then BadString else Transport);
      }
      if b.value == '"' {
        CloseDelivers(was, p.Length, filled, s, br.ending);
        done := true;
        return n, true, if n > 0 then More else AtEnd;
      } else if b.value == '\\' {
        m, stop, end := StepEscape(p, n, was, s);
      } else {
        PlainKeeps(was, filled, s, br.ending);
        p[n] := b.value;
        assert p[..n + 1] == filled + s[..1];
        return n + 1, false, More;
      }
    }

    /** The same for an escape `s`, its backslash already read. */
    method StepEscape(p: array<char>, n: nat, ghost was: Text, ghost s: string)
      returns (m: nat, stop: bool, end: ReadEnd)
      requires Valid() && !done && n < p.Length && pending == ""
      requires |s| > 0 && s[0] == '\\' && s[1..] == br.Rest() && Split(was, p[..n], "", s, br.ending)
      modifies this, br, p
      ensures Valid() && n <= m <= p.Length
      ensures if stop then Delivered(was, p.Length, p[..m], end, Stream())
              else Midway(was, p, m) && end == More && |br.Rest()| < |s|
      ensures (end != More ==> stop) && (end == AtEnd ==> done)
      ensures forall i :: m <= i < p.Length ==> p[i] == old(p[i])
    {
      ghost var filled := p[..n];
      var out, ok := ReadEscape();
      if !ok {
        RejectDelivers(was, p.Length, filled, s, br.ending, Stream());
        return n, true, Fault(BadString);
      }
      m := Place(out, p, n);
      EscapeKeeps(was, filled, s, br.ending, p[n..m], pending);
      assert p[..m] == filled + p[n..m];
      return m, false, More;
    }

    /** Move pending bytes to the front of `p` until one of the two is used up. */
    method Drain(p: array<char>) returns (n: nat)
      modifies `pending, p
      ensures n <= p.Length && (n < p.Length ==> pending == "")
      ensures old(pending) == p[..n] + pending
      ensures forall i :: n <= i < p.Length ==> p[i] == old(p[i])
    {
      n := 0;
      while |pending| > 0 && n < p.Length
        invariant n <= p.Length && old(pending) == p[..n] + pending
        invariant forall i :: n <= i < p.Length ==> p[i] == old(p[i])
      {
        p[n] := pending[0];
        pending := pending[1..];
        n := n + 1;
      }
    }

    /** Put an escape's output behind the first `n` bytes of `p`; what does not fit is pending. */
    method Place(out: string, p: array<char>, n: nat) returns (m: nat)
      requires n < p.Length && pending == ""
      modifies `pending, p
      ensures n <= m <= p.Length
      ensures m < p.Length ==> pending == ""
      ensures p[n..m] + pending == out
      ensures forall i :: 0 <= i < n || m <= i < p.Length ==> p[i] == old(p[i])
    {
      m := n;
      for i := 0 to |out|
        invariant n <= m <= p.Length
        invariant m < p.Length ==> pending == ""
        invariant out[..i] == p[n..m] + pending
        invariant forall i :: 0 <= i < n || m <= i < p.Length ==> p[i] == old(p[i])
      {
        ghost var soFar := p[n..m];
        assert out[..i + 1] == soFar + pending + [out[i]];
        if m < p.Length {
          p[m] := out[i];
          m := m + 1;
          assert p[n..m] == soFar + [out[i]];
        } else {
          pending := pending + [out[i]];
        }
      }
    }
  }

  lemma ShortHex(s: string, i: nat, n: nat)
    requires i <= n && (Hex(s, i) < 0 || i == |s| < n)
    ensures Hex(s, n) < 0
  {
    if i < n && n <= |s| {
      ShortHex(s, i, n - 1);
    }
  }

  // ---------------------------------------------------------------- whole strings

  function Sum(sizes: seq<nat>): nat {
    if |sizes| == 0 then 0 else sizes[0] + Sum(sizes[1..])
  }

  /** What reads with room for `sum` bytes in all have delivered, and what they left. */
  ghost predicate Progress(was: Text, sum: nat, got: string, end: ReadEnd, now: Text) {
    && got == was.out[..Min(sum, |was.out|)]
    && (!end.Fault? ==> now == Text(was.out[|got|..], was.end))
    && (end != More ==> got == was.out)
    && (end == AtEnd ==> was.end.Closed?)
    && (end.Fault? ==> was.end == Broken(end.error))
  }

  /**
    Reads through buffers of the given sizes, up to the first one that reports an end.
    Whatever the sizes are, the bytes are a prefix of the one-shot string, an end is
    reported only behind its last byte, and the source is left just past the quote.
   */
  method ReadInPieces(sr: StringReader, sizes: seq<nat>) returns (got: string, end: ReadEnd)
    requires sr.Valid()
    modifies sr, sr.br
    ensures sr.Valid()
    ensures Progress(old(sr.Stream()), Sum(sizes), got, end, sr.Stream())
    ensures end == AtEnd ==> old(sr.Stream()).end == Closed(sr.br.Rest())
    decreases |sizes|
  {
    if |sizes| == 0 {
      return "", More;
    }
    ghost var was := sr.Stream();
    got, end := ReadOnce(sr, sizes[0]);
    if end == More {
      ghost var left := sr.Stream();
      var more;
      more, end := ReadInPieces(sr, sizes[1..]);
      Prepend(was, sizes[0], got, left, Sum(sizes[1..]), more, end, sr.Stream());
      got := got + more;
    }
  }

  lemma Prepend(was: Text, k: nat, got: string, left: Text, sum: nat, more: string, end: ReadEnd, now: Text)
    requires Delivered(was, k, got, More, left) && Progress(left, sum, more, end, now)
    ensures Progress(was, k + sum, got + more, end, now)
  {
    assert got + more == was.out[..Min(k + sum, |was.out|)];
    assert left.out[|more|..] == was.out[|got + more|..];
  }

  method ReadOnce(sr: StringReader, k: nat) returns (piece: string, end: ReadEnd)
    requires sr.Valid()
    modifies sr, sr.br
    ensures sr.Valid()
    ensures Delivered(old(sr.Stream()), k, piece, end, sr.Stream())
    ensures end == AtEnd ==> sr.done
  {
    var p := new char[k];
    var n;
    n, end := sr.Read(p);
    piece := p[..n];
  }

  lemma Advance(was: Text, sum: nat, got: string, left: Text, k: nat, piece: string, end: ReadEnd, now: Text)
    requires Progress(was, sum, got, More, left) && Delivered(left, k, piece, end, now)
    ensures Progress(was, sum + k, got + piece, end, now)
  {
    assert got + piece == was.out[..Min(sum + k, |was.out|)];
    assert left.out[|piece|..] == was.out[|got + piece|..];
  }

  const CHUNK: nat := 512

  /** Everything a string yields, through a buffer of fixed size, and how it ended. */
  method CopyAll(sr: StringReader) returns (all: string, end: ReadEnd)
    requires sr.Valid()
    modifies sr, sr.br
    ensures sr.Valid() && all == old(sr.Stream()).out
    ensures match old(sr.Stream()).end
            case Broken(e) => end == Fault(e)
            case Closed(rest) => end == AtEnd && sr.br.Rest() == rest
  {
    ghost var was := sr.Stream();
    ghost var sum: nat := 0;
    all, end := "", More;
    while end == More
      invariant sr.Valid() && Progress(was, sum, all, end, sr.Stream())
      invariant end == AtEnd ==> sr.done
      decreases |was.out| - |all|, end == More
    {
      ghost var left := sr.Stream();
      var piece;
      piece, end := ReadOnce(sr, CHUNK);
      Advance(was, sum, all, left, CHUNK, piece, end, sr.Stream());
      sum := sum + CHUNK;
      all := all + piece;
    }
  }

  /** A whole string value, its opening quote already taken. */
  function StringTail(s: string, ending: Ending): (r: Parsed<string>)
    ensures r.Got? ==> |r.rest| < |s|
  {
    var t := Unescape(s, ending);
    match t.end
    case Closed(rest) => Got(t.out, rest)
    case Broken(e) => Failed(e)
  }

  method ReadShortString(br: Reader) returns (outcome: Outcome<string>)
    requires br.Valid()
    modifies br
    ensures br.Valid()
    ensures Agrees(StringTail(old(br.Rest()), br.ending), outcome, br.Rest())
  {
    var sr := new StringReader(br);
    var all, end := CopyAll(sr);
    return if end.Fault? then Error(end.error) else Value(all);
  }
}
