/** Where formatted characters go: a bounded buffer, nowhere, or a character device. */
module Output {

  /** The state of a sink. A buffer takes the characters below `maxlen`; a device drops NUL characters. */
  datatype Output = ToBuffer(buf: string, maxlen: nat) | ToNowhere | ToDevice(sent: string)

  predicate Good(o: Output) {
    o.ToBuffer? ==> o.maxlen <= |o.buf|
  }

  function Put(o: Output, idx: nat, c: char): (o': Output)
    requires Good(o)
    ensures Good(o')
  {
    match o
    case ToBuffer(buf, maxlen) => if idx < maxlen then o.(buf := buf[idx := c]) else o
    case ToNowhere => o
    case ToDevice(sent) => if c != '\0' then ToDevice(sent + [c]) else o
  }

  /** The characters of `text` at consecutive indices from `idx` on. */
  function PutAll(o: Output, idx: nat, text: string): (o': Output)
    requires Good(o)
    ensures Good(o')
  {
    if text == "" then o
    else
      var n := |text| - 1;
      Put(PutAll(o, idx, text[..n]), idx + n, text[n])
  }

  lemma {:induction false} PutAllConcat(o: Output, idx: nat, a: string, b: string)
    requires Good(o)
    ensures PutAll(o, idx, a + b) == PutAll(PutAll(o, idx, a), idx + |a|, b)
  {
    if b == "" {
      assert a + b == a;
    } else {
      var n := |b| - 1;
      assert (a + b)[..|a| + n] == a + b[..n];
      PutAllConcat(o, idx, a, b[..n]);
    }
  }

  lemma {:induction false} PutAllOne(o: Output, idx: nat, c: char)
    requires Good(o)
    ensures PutAll(o, idx, [c]) == Put(o, idx, c)
  {
    assert [c][..0] == "";
  }

  /** A buffer ends up with exactly the characters that fall below its limit; the rest of it is untouched. */
  lemma {:induction false} BufferAfter(buf: string, maxlen: nat, idx: nat, text: string)
    requires maxlen <= |buf|
    ensures var o := PutAll(ToBuffer(buf, maxlen), idx, text);
            && o.ToBuffer? && o.maxlen == maxlen && |o.buf| == |buf|
            && forall j :: 0 <= j < |buf| ==>
                 o.buf[j] == if idx <= j < idx + |text| && j < maxlen then text[j - idx] else buf[j]
  {
    if text != "" {
      var n := |text| - 1;
      BufferAfter(buf, maxlen, idx, text[..n]);
    }
  }

  function WithoutNul(text: string): string {
    if text == "" then ""
    else
      var n := |text| - 1;
      WithoutNul(text[..n]) + if text[n] != '\0' then [text[n]] else ""
  }

  /** A device receives every character but NUL, whatever the index says. */
  lemma {:induction false} DeviceAfter(sent: string, idx: nat, text: string)
    ensures PutAll(ToDevice(sent), idx, text) == ToDevice(sent + WithoutNul(text))
  {
    if text == "" {
      assert sent + "" == sent;
    } else {
      var n := |text| - 1;
      DeviceAfter(sent, idx, text[..n]);
      var before, last := WithoutNul(text[..n]), if text[n] != '\0' then [text[n]] else "";
      assert sent + (before + last) == sent + before + last;
      assert sent + before + "" == sent + before;
    }
  }

  datatype Kind = BufferKind | NullKind | DeviceKind

  class Sink {
    const kind: Kind
    const buffer: array<char>
    const maxlen: nat
    var sent: string

    constructor (kind: Kind, buffer: array<char>, maxlen: nat)
      requires kind == BufferKind ==> maxlen <= buffer.Length
      ensures Valid() && this.kind == kind && this.buffer == buffer && this.maxlen == maxlen && sent == ""
    {
      this.kind, this.buffer, this.maxlen, sent := kind, buffer, maxlen, "";
    }

    predicate Valid() {
      kind == BufferKind ==> maxlen <= buffer.Length
    }

    ghost function State(): (o: Output)
      requires Valid()
      reads this, buffer
      ensures Good(o)
    {
      match kind
      case BufferKind => ToBuffer(buffer[..], maxlen)
      case NullKind => ToNowhere
      case DeviceKind => ToDevice(sent)
    }

    method Out(c: char, idx: nat)
      requires Valid()
      modifies this, buffer
      ensures State() == Put(old(State()), idx, c)
    {
      match kind
      case BufferKind =>
        if idx < maxlen {
          buffer[idx] := c;
        }
      case NullKind =>
      case DeviceKind =>
        if c != '\0' {
          sent := sent + [c];
        }
    }

    /** Emits one more character of a text that is under way; the ghost arguments say how far it has come. */
    method OutNext(c: char, idx: nat, ghost start: Output, ghost from: nat, ghost done: string)
      requires Valid() && Good(start) && idx == from + |done| && State() == PutAll(start, from, done)
      modifies this, buffer
      ensures State() == PutAll(start, from, done + [c])
    {
      PutAllConcat(start, from, done, [c]);
      PutAllOne(State(), idx, c);
      Out(c, idx);
    }

    method Spaces(count: int, idx: nat) returns (end: nat)
      requires Valid()
      modifies this, buffer
      ensures end == idx + |SpaceText(count)| && State() == PutAll(old(State()), idx, SpaceText(count))
    {
      end := idx;
      ghost var done := "";
      var i := 0;
      while i < count
        invariant 0 <= i && (i <= count || i == 0)
        invariant done == SpaceText(i) && end == idx + i
        invariant State() == PutAll(old(State()), idx, done)
      {
        OutNext(' ', end, old(State()), idx, done);
        done := done + [' '];
        end := end + 1;
        i := i + 1;
      }
    }

    /** Brings a text that has been emitted up to a width. */
    method SpacesBehind(width: nat, end: nat, idx: nat, ghost start: Output, ghost text: string) returns (end': nat)
      requires Valid() && Good(start) && end == idx + |text| && State() == PutAll(start, idx, text)
      modifies this, buffer
      ensures end' == idx + |text + SpaceText(width - |text|)|
      ensures State() == PutAll(start, idx, text + SpaceText(width - |text|))
    {
      var gap := width - (end - idx);
      end' := Spaces(gap, end);
      PutAllConcat(start, idx, text, SpaceText(gap));
    }
  }

  function SpaceText(count: int): string {
    seq(if count < 0 then 0 else count, _ => ' ')
  }
}
