/** The buffered byte source every parser reads from, and how reading can fail. */
module ByteStream {
  import opened Basics

  /** What the source reports once its bytes run out: a clean end, or a transport error. */
  datatype Ending = Eof | Cut

  /** The errors the parsers return; `Transport` relays an error of the source itself. */
  datatype ParseError = BadString | Incomplete | Malformed | Unfinished | Transport

  /** What a parser leaves behind: a value and the unread bytes, or an error. */
  datatype Parsed<+T> = Got(value: T, rest: string) | Failed(error: ParseError)

  datatype Outcome<+T> = Value(value: T) | Error(error: ParseError)

  /** A parser's outcome and unread bytes are the ones its specification names. */
  ghost predicate Agrees<T>(spec: Parsed<T>, outcome: Outcome<T>, rest: string) {
    match spec
    case Got(v, r) => outcome == Value(v) && rest == r
    case Failed(e) => outcome == Error(e)
  }

  /** A buffered reader: bytes are taken one at a time, and the last one can be put back. */
  class Reader {
    const data: string
    const ending: Ending
    var pos: nat

    ghost predicate Valid()
      reads this
    {
      pos <= |data|
    }

    ghost function Rest(): string
      reads this
      requires Valid()
    {
      data[pos..]
    }

    constructor (data: string, ending: Ending)
      ensures Valid() && Rest() == data && this.ending == ending
    {
      this.data, this.ending, this.pos := data, ending, 0;
    }

    method ReadByte() returns (b: Option<char>)
      requires Valid()
      modifies this
      ensures Valid()
      ensures b.None? <==> old(Rest()) == ""
      ensures b.Some? ==> old(Rest()) == [b.value] + Rest() && Rest() == old(Rest())[1..] && pos == old(pos) + 1
      ensures b.None? ==> Rest() == old(Rest())
    {
      if pos == |data| {
        return None;
      }
      b := Some(data[pos]);
      pos := pos + 1;
    }

    method UnreadByte()
      requires Valid() && pos > 0
      modifies this
      ensures Valid() && pos == old(pos) - 1 && Rest() == [data[pos]] + old(Rest())
    {
      pos := pos - 1;
    }
  }
}
