/** The command line parser and builder: an iterator over a text, and a NUL-terminated buffer that grows. */
module CommandlineOps {
  import opened Basics
  import opened Commandline

  const NUL := '\0'

  class CommandlineParser {
    const data: string
    var pos: nat

    ghost predicate Valid()
      reads this
    {
      pos <= |data|
    }

    constructor (data: string)
      ensures this.data == data && pos == 0 && Valid() && Remains() == data
    {
      this.data := data;
      pos := 0;
    }

    function Remains(): (r: string)
      requires Valid()
      reads this
    {
      data[pos..]
    }

    function Peek(): (c: Option<char>)
      requires Valid()
      reads this
    {
      if pos < |data| then Some(data[pos]) else None
    }

    /** Advances to the next place with the mark. */
    method TakeUntil(stop: Mark) returns (taken: string)
      requires Valid()
      modifies this`pos
      ensures Valid()
      ensures pos == old(pos) + Find(old(Remains()), 0, stop) && taken == data[old(pos)..pos]
    {
      ghost var r := Remains();
      var n := 0;
      FindFinds(r, 0, stop);
      while pos + n < |data| && !stop.At(data[pos + n])
        invariant 0 <= n <= Find(r, 0, stop)
      {
        n := n + 1;
      }
      FindIs(r, 0, stop, n);
      taken := data[pos..pos + n];
      pos := pos + n;
    }

    method SkipWhitespaces()
      requires Valid()
      modifies this`pos
      ensures Valid() && pos == old(pos) + Find(old(Remains()), 0, NotSpace)
    {
      var _ := TakeUntil(NotSpace);
    }

    method ParseKey() returns (key: Option<string>)
      requires Valid()
      modifies this`pos
      ensures Valid()
      ensures var r := old(Remains());
              var k0 := Find(r, 0, NotSpace);
              var k1 := Find(r, k0, KeyEnd);
              pos == old(pos) + k1 && key == if k0 == k1 then None else Some(r[k0..k1])
    {
      hide Find, Mark.At;
      ghost var r := Remains();
      SkipWhitespaces();
      ghost var k0 := Find(r, 0, NotSpace);
      assert Remains() == r[k0..] && r == r[..k0] + r[k0..];
      FindShift(r[..k0], r[k0..], 0, KeyEnd);
      var text := TakeUntil(KeyEnd);
      assert text == r[k0..Find(r, k0, KeyEnd)];
      key := if text == "" then None else Some(text);
    }

    /** The value after a key that ends at place `k` of the text `r` that remained before the key. */
    method ParseValue(ghost r: string, ghost key: string, ghost k: nat) returns (value: Option<Option<string>>)
      requires Valid() && |r| <= |data| && r == data[|data| - |r|..] && k <= |r| && pos == |data| - |r| + k
      modifies this`pos
      ensures Valid()
      ensures var v := Commandline.ParseValue(r, key, k);
              && pos == |data| - |r| + v.1
              && v.0 == (if value.Some? then Good(Entry(key, value.value)) else Invalid)
    {
      assert !IsSpace('=');
      hide IsSpace, Find;
      assert pos < |data| ==> data[pos] == r[k];
      if Peek() == Some('=') {
        pos := pos + 1;
      } else if Peek() == None || IsSpace(Peek().value) {
        return Some(None);
      } else {
        pos := |data|;
        return None;
      }
      assert pos < |data| ==> data[pos] == r[k + 1];
      if Peek() == Some('"') {
        pos := pos + 1;
        var text := TakeText(r, k + 2, Quote);
        if Peek() == Some('"') {
          pos := pos + 1;
          return Some(Some(text));
        } else {
          pos := |data|;
          return None;
        }
      } else {
        var text := TakeText(r, k + 1, Space);
        return Some(Some(text));
      }
    }

    /** Takes the text from place `k` of `r` up to the mark. */
    method TakeText(ghost r: string, ghost k: nat, stop: Mark) returns (text: string)
      requires Valid() && |r| <= |data| && r == data[|data| - |r|..] && k <= |r| && pos == |data| - |r| + k
      modifies this`pos
      ensures Valid() && pos == |data| - |r| + Find(r, k, stop) && text == r[k..Find(r, k, stop)]
      ensures Peek() == if Find(r, k, stop) < |r| then Some(r[Find(r, k, stop)]) else None
      ensures Find(r, k, stop) < |r| ==> stop.At(r[Find(r, k, stop)])
    {
      hide Mark.At, Find;
      assert r == r[..k] + r[k..] && Remains() == r[k..];
      FindShift(r[..k], r[k..], 0, stop);
      FindFinds(r, k, stop);
      text := TakeUntil(stop);
    }

    /** One step of the iterator. */
    method Next() returns (item: Option<Item>)
      requires Valid()
      modifies this`pos
      ensures Valid()
      ensures (item, pos - old(pos)) == Commandline.Next(old(Remains()))
    {
      ghost var r := Remains();
      ghost var k0 := Find(r, 0, NotSpace);
      ghost var k1 := Find(r, k0, KeyEnd);
      var key := ParseKey();
      if key.None? {
        return None;
      }
      var value := ParseValue(r, r[k0..k1], k1);
      item := Some(if value.Some? then Good(Entry(key.value, value.value)) else Invalid);
    }

    /** Drains the iterator. */
    method Collect() returns (items: seq<Item>)
      requires Valid()
      modifies this`pos
      ensures Valid() && items == Parse(old(Remains())) && Remains() == Unparsed(old(Remains()))
    {
      hide Commandline.Next;
      items := [];
      ghost var r := Remains();
      while true
        invariant Valid()
        invariant Parse(r) == items + Parse(Remains()) && Unparsed(r) == Unparsed(Remains())
        decreases |data| - pos
      {
        ghost var before := Remains();
        var item := Next();
        assert Remains() == before[Commandline.Next(before).1..];
        if item.None? {
          return;
        }
        items := items + [item.value];
      }
    }
  }

  datatype Error = BufferTooSmall(needed: Option<nat>) | InvalidInput | Other

  datatype Outcome<T> = Ok(value: T) | Err(error: Error)

  /** A reader's demand for space, and the place of the terminator. */
  function Grown(e: Error): Error {
    if e.BufferTooSmall? && e.needed.Some? then BufferTooSmall(Some(e.needed.value + 1)) else e
  }

  /** A line in a buffer, followed by its terminator; the rest of the buffer is free. */
  class CommandlineBuilder {
    const buffer: array<char>
    var currentSize: nat

    /** The line is terminated once, at its end: the reason why `AsStr` cannot fail. */
    ghost predicate Valid()
      reads this, buffer
    {
      currentSize < buffer.Length && buffer[currentSize] == NUL && NUL !in buffer[..currentSize]
    }

    ghost function Text(): string
      requires Valid()
      reads this, buffer
    {
      buffer[..currentSize]
    }

    constructor Over(buffer: array<char>, size: nat)
      requires size < buffer.Length && buffer[size] == NUL && NUL !in buffer[..size]
      ensures this.buffer == buffer && Valid() && Text() == buffer[..size]
    {
      this.buffer := buffer;
      currentSize := size;
    }

    static method New(buffer: array<char>) returns (r: Outcome<CommandlineBuilder>)
      modifies buffer
      ensures r.Ok? <==> buffer.Length >= 1
      ensures r.Ok? ==> fresh(r.value) && r.value.buffer == buffer && r.value.Valid() && r.value.Text() == ""
      ensures r.Err? ==> r.error == BufferTooSmall(Some(1))
    {
      if buffer.Length < 1 {
        return Err(BufferTooSmall(Some(1)));
      }
      buffer[0] := NUL;
      var b := new CommandlineBuilder.Over(buffer, 0);
      return Ok(b);
    }

    /** Continues the line that the buffer holds. */
    static method NewFromPrefix(buffer: array<char>) returns (r: Outcome<CommandlineBuilder>)
      ensures r.Ok? <==> NUL in buffer[..]
      ensures r.Ok? ==> fresh(r.value) && r.value.buffer == buffer && r.value.Valid()
      ensures r.Err? ==> r.error == InvalidInput
    {
      var n := 0;
      while n < buffer.Length && buffer[n] != NUL
        invariant n <= buffer.Length && NUL !in buffer[..n]
      {
        n := n + 1;
      }
      if n == buffer.Length {
        assert buffer[..n] == buffer[..];
        return Err(InvalidInput);
      }
      var b := new CommandlineBuilder.Over(buffer, n);
      return Ok(b);
    }

    function RemainingCapacity(): (n: nat)
      requires Valid()
      reads this, buffer
    {
      buffer.Length - currentSize - 1
    }

    /** How much a reader may write: what is free, less the place of the next terminator. */
    function Room(): (n: nat)
      requires Valid()
      reads this, buffer
    {
      if RemainingCapacity() == 0 then 0 else RemainingCapacity() - 1
    }

    /**
     * Appends what a reader wrote. The reader leaves `written` in the free part of the buffer and answers how
     * much of it counts, or fails.
     */
    method AddWith(written: string, answer: Outcome<nat>) returns (r: Outcome<()>)
      requires Valid() && |written| == Room()
      requires answer.Ok? ==> answer.value <= Room()
      modifies this`currentSize, buffer
      ensures Valid()
      ensures r.Ok? <==> answer.Ok? && NUL !in written[..answer.value]
      ensures Text() == old(Text()) + if r.Ok? && answer.value > 0 then " " + written[..answer.value] else ""
      ensures r.Err? && answer.Ok? ==> r.error == InvalidInput
      ensures r.Err? && answer.Err? ==> r.error == Grown(answer.error)
    {
      ghost var text := Text();
      var at := currentSize + 1;
      forall i | 0 <= i < |written| {
        buffer[at + i] := written[i];
      }
      assert Text() == text;
      match answer {
        case Err(BufferTooSmall(Some(requested))) => return Err(BufferTooSmall(Some(requested + 1)));
        case Err(e) => return Err(e);
        case Ok(size) =>
          if size == 0 {
            return Ok(());
          }
          if NUL in written[..size] {
            return Err(InvalidInput);
          }
          buffer[currentSize] := ' ';
          assert buffer[..at + size] == text + " " + written[..size];
          currentSize := currentSize + size + 1;
          buffer[currentSize] := NUL;
          assert Text() == text + " " + written[..size];
          return Ok(());
      }
    }

    /** Appends a text; it fits exactly when there is room for it and for the space before it. */
    method Add(text: string) returns (r: Outcome<()>)
      requires Valid()
      modifies this`currentSize, buffer
      ensures Valid()
      ensures r.Ok? <==> text == "" || (|text| < old(RemainingCapacity()) && NUL !in text)
      ensures r.Err? && |text| < old(RemainingCapacity()) ==> r.error == InvalidInput
      ensures r.Err? && |text| >= old(RemainingCapacity()) ==> r.error == BufferTooSmall(Some(|text| + 1))
      ensures Text() == old(Text()) + if r.Ok? && text != "" then " " + text else ""
      ensures r.Ok? && Clean(old(Text())) && Clean(text) ==>
        Parse(Text()) == Parse(old(Text())) + Parse(text) && Clean(Text())
    {
      if text == "" {
        assert Text() + "" == Text();
        assert Parse("") == [] by { BlankNext(""); }
        return Ok(());
      }
      if RemainingCapacity() < |text| + 1 {
        return Err(BufferTooSmall(Some(|text| + 1)));
      }
      ghost var line := Text();
      var written := text + seq(Room() - |text|, _ => NUL);
      assert written[..|text|] == text;
      r := AddWith(written, Ok(|text|));
      if Clean(line) && Clean(text) {
        CleanAppend(line, text);
      }
    }

    method AsStr() returns (s: string)
      requires Valid()
      ensures s == Trim(Text())
    {
      s := Trim(buffer[..currentSize]);
    }

    /** The entries of the line, in spite of the space before the first. */
    method Entries() returns (parser: CommandlineParser)
      requires Valid()
      ensures fresh(parser) && parser.Valid() && Parse(parser.Remains()) == Parse(Text())
    {
      var s := AsStr();
      parser := new CommandlineParser(s);
      TrimParses(Text());
    }
  }

  /** Adds entries one by one, as long as they fit. */
  method AddEntries(b: CommandlineBuilder, es: seq<Entry>) returns (added: nat)
    requires b.Valid() && b.Text() == ""
    requires forall e :: e in es ==> Plain(e) && NUL !in Display(e)
    modifies b, b.buffer
    ensures b.Valid() && added <= |es|
    ensures b.Text() == Line(es[..added]) && Parse(b.Text()) == Goods(es[..added])
    ensures added < |es| ==> |Line(es[..added + 1])| >= b.buffer.Length
  {
    added := 0;
    while added < |es|
      invariant b.Valid() && added <= |es| && b.Text() == Line(es[..added])
    {
      assert es[..added + 1][..added] == es[..added];
      assert Display(es[added]) != "";
      var r := b.Add(Display(es[added]));
      if r.Err? {
        break;
      }
      added := added + 1;
    }
    LineRoundTrip(es[..added]);
  }
}
