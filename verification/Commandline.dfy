/** The kernel command line: parsing it into entries. */
module Commandline {

  import opened Basics

  datatype Entry = Entry(key: string, value: Option<string>)

  /** What the parser yields: an entry, or the report of a missing closing quote. */
  datatype Item = Good(entry: Entry) | Invalid

  function Display(e: Entry): string {
    if e.value.Some? then e.key + "=" + e.value.value else e.key
  }

  /** The white space of Unicode. */
  predicate IsSpace(c: char) {
    var u := c as int;
    || 0x09 <= u <= 0x0D || u == 0x20 || u == 0x85 || u == 0xA0 || u == 0x1680
    || 0x2000 <= u <= 0x200A || u == 0x2028 || u == 0x2029 || u == 0x202F || u == 0x205F || u == 0x3000
  }

  /** What the parser looks for. */
  datatype Mark = Space | NotSpace | KeyEnd | Quote {
    predicate At(c: char) {
      match this
      case Space => IsSpace(c)
      case NotSpace => !IsSpace(c)
      case KeyEnd => IsSpace(c) || c == '='
      case Quote => c == '"'
    }
  }

  /** The first place from `p` on with the mark, or the end. */
  function Find(s: string, p: nat, stop: Mark): (q: nat)
    requires p <= |s|
    ensures p <= q <= |s|
    decreases |s| - p
  {
    if p == |s| || stop.At(s[p]) then p else Find(s, p + 1, stop)
  }

  lemma {:induction false} FindFinds(s: string, p: nat, stop: Mark)
    requires p <= |s|
    ensures Find(s, p, stop) < |s| ==> stop.At(s[Find(s, p, stop)])
    ensures forall i :: p <= i < Find(s, p, stop) ==> !stop.At(s[i])
    decreases |s| - p
  {
    if p < |s| && !stop.At(s[p]) {
      FindFinds(s, p + 1, stop);
    }
  }

  lemma {:induction false} FindIs(s: string, p: nat, stop: Mark, q: nat)
    requires p <= q <= |s|
    requires q < |s| ==> stop.At(s[q])
    requires forall i :: p <= i < q ==> !stop.At(s[i])
    ensures Find(s, p, stop) == q
    decreases q - p
  {
    if p < q {
      FindIs(s, p + 1, stop, q);
    }
  }

  // ----- One step of the parser --------------------------------------------------------------

  /** The value after a key that ends at `k`, and where it ends. */
  function ParseValue(s: string, key: string, k: nat): (r: (Item, nat))
    requires k <= |s|
    ensures k <= r.1 <= |s|
  {
    if k == |s| || IsSpace(s[k]) then (Good(Entry(key, None)), k)
    else if s[k] != '=' then (Invalid, |s|)
    else if k + 1 < |s| && s[k + 1] == '"' then
      var q := Find(s, k + 2, Quote);
      if q < |s| then (Good(Entry(key, Some(s[k + 2..q]))), q + 1) else (Invalid, |s|)
    else
      var v := Find(s, k + 1, Space);
      (Good(Entry(key, Some(s[k + 1..v]))), v)
  }

  /** The item whose key is `[k0, k1)`. */
  function ParseItem(s: string, k0: nat, k1: nat): (r: (Option<Item>, nat))
    requires k0 <= k1 <= |s|
    ensures k0 <= r.1 <= |s| && (r.0.Some? ==> k0 < r.1)
  {
    if k0 == k1 then (None, k0)
    else var r := ParseValue(s, s[k0..k1], k1); (Some(r.0), r.1)
  }

  /** What the iterator yields when `r` remains, and how much of it that takes. */
  function Next(r: string): (n: (Option<Item>, nat))
    ensures n.1 <= |r| && (n.0.Some? ==> 0 < n.1)
  {
    var k0 := Find(r, 0, NotSpace);
    ParseItem(r, k0, Find(r, k0, KeyEnd))
  }

  /** All that the iterator yields when `r` remains. */
  function Parse(r: string): seq<Item>
    decreases |r|
  {
    var (item, n) := Next(r);
    if item.None? then [] else [item.value] + Parse(r[n..])
  }

  /** What it leaves unparsed. */
  function Unparsed(r: string): string
    decreases |r|
  {
    var (item, n) := Next(r);
    if item.None? then r[n..] else Unparsed(r[n..])
  }

  /** Parsed to the very end, without a complaint. */
  predicate Clean(r: string) {
    Unparsed(r) == "" && Invalid !in Parse(r)
  }

  /** After the last entry, and after a complaint, nothing more is yielded. */
  lemma Fused(r: string)
    ensures Next(r).0 == None || Next(r).0 == Some(Invalid) ==> Next(r[Next(r).1..]) == (None, 0)
  {
    var k0 := Find(r, 0, NotSpace);
    FindFinds(r, 0, NotSpace);
    FindFinds(r, k0, KeyEnd);
  }

  // ----- Appending ---------------------------------------------------------------------------

  /** Whatever follows, if anything, starts with white space. */
  predicate Separated(rest: string) {
    rest != "" ==> IsSpace(rest[0])
  }

  /** Up to a separator, what follows does not change where something is found. */
  lemma FindLocal(s: string, rest: string, p: nat, stop: Mark)
    requires p <= |s| && ((rest != "" ==> stop.At(rest[0])) || Find(s, p, stop) < |s|)
    ensures Find(s + rest, p, stop) == Find(s, p, stop)
  {
    FindFinds(s, p, stop);
    FindIs(s + rest, p, stop, Find(s, p, stop));
  }

  lemma FindShift(s: string, rest: string, p: nat, stop: Mark)
    requires p <= |rest|
    ensures Find(s + rest, |s| + p, stop) == |s| + Find(rest, p, stop)
  {
    FindFinds(rest, p, stop);
    FindIs(s + rest, |s| + p, stop, |s| + Find(rest, p, stop));
  }

  lemma FindPast(s: string, rest: string, p: nat, stop: Mark)
    requires p <= |s| && Find(s, p, stop) == |s|
    ensures Find(s + rest, p, stop) == |s| + Find(rest, 0, stop)
  {
    FindFinds(s, p, stop);
    FindFinds(rest, 0, stop);
    FindIs(s + rest, p, stop, |s| + Find(rest, 0, stop));
  }

  /** An entry before a separator is parsed alike, whatever follows; so is the refusal of a stray '='. */
  lemma NextLocal(s: string, rest: string)
    requires Separated(rest)
    requires if Next(s).0.Some? then Next(s).0.value.Good? else Next(s).1 < |s|
    ensures Next(s + rest) == Next(s)
  {
    hide Find, ParseValue;
    var k0 := Find(s, 0, NotSpace);
    var k1 := Find(s, k0, KeyEnd);
    if k0 < |s| {
      FindLocal(s, rest, 0, NotSpace);
      FindLocal(s, rest, k0, KeyEnd);
      if k0 < k1 {
        assert (s + rest)[k0..k1] == s[k0..k1];
        ValueLocal(s, rest, s[k0..k1], k1);
      }
    }
  }

  lemma ValueLocal(s: string, rest: string, key: string, k: nat)
    requires k <= |s| && Separated(rest)
    requires ParseValue(s, key, k).0.Good?
    ensures ParseValue(s + rest, key, k) == ParseValue(s, key, k)
  {
    hide Find;
    if k < |s| && s[k] == '=' {
      if k + 1 < |s| && s[k + 1] == '"' {
        FindLocal(s, rest, k + 2, Quote);
        var q := Find(s, k + 2, Quote);
        assert (s + rest)[k + 2..q] == s[k + 2..q];
      } else {
        FindLocal(s, rest, k + 1, Space);
        var v := Find(s, k + 1, Space);
        assert (s + rest)[k + 1..v] == s[k + 1..v];
      }
    }
  }

  lemma ItemShift(s: string, rest: string, k0: nat, k1: nat)
    requires k0 <= k1 <= |rest|
    ensures var r := ParseItem(rest, k0, k1); ParseItem(s + rest, |s| + k0, |s| + k1) == (r.0, r.1 + |s|)
  {
    if k0 < k1 {
      assert (s + rest)[|s| + k0..|s| + k1] == rest[k0..k1];
      ValueShift(s, rest, rest[k0..k1], k1);
    }
  }

  lemma ValueShift(s: string, rest: string, key: string, k: nat)
    requires k <= |rest|
    ensures var r := ParseValue(rest, key, k); ParseValue(s + rest, key, |s| + k) == (r.0, r.1 + |s|)
  {
    hide Find, IsSpace;
    var t := s + rest;
    if k < |rest| && rest[k] == '=' {
      if k + 1 < |rest| && rest[k + 1] == '"' {
        FindShift(s, rest, k + 2, Quote);
        var q := Find(rest, k + 2, Quote);
        assert t[|s| + k + 2..|s| + q] == rest[k + 2..q];
      } else {
        FindShift(s, rest, k + 1, Space);
        var v := Find(rest, k + 1, Space);
        assert t[|s| + k + 1..|s| + v] == rest[k + 1..v];
      }
    }
  }

  lemma SilentIsBlank(s: string)
    requires Next(s) == (None, |s|)
    ensures Find(s, 0, NotSpace) == |s|
  {
    FindFinds(s, Find(s, 0, NotSpace), KeyEnd);
  }

  /** Where only white space is left, parsing goes on with what follows. */
  lemma NextPast(s: string, rest: string)
    requires Next(s) == (None, |s|)
    ensures Next(s + rest) == (Next(rest).0, Next(rest).1 + |s|)
  {
    hide Find, ParseItem;
    SilentIsBlank(s);
    FindPast(s, rest, 0, NotSpace);
    var k0 := Find(rest, 0, NotSpace);
    FindShift(s, rest, k0, KeyEnd);
    ItemShift(s, rest, k0, Find(rest, k0, KeyEnd));
  }

  // ----- The same for whole lines ------------------------------------------------------------

  /** Appending a separated text to a clean line appends its entries. */
  lemma {:induction false} ParseAppend(s: string, rest: string)
    requires Clean(s) && Separated(rest)
    ensures Parse(s + rest) == Parse(s) + Parse(rest) && Unparsed(s + rest) == Unparsed(rest)
    decreases |s|
  {
    hide Next;
    var (item, n) := Next(s);
    if item.Some? {
      NextLocal(s, rest);
      assert (s + rest)[n..] == s[n..] + rest;
      ParseAppend(s[n..], rest);
    } else {
      NextPast(s, rest);
      assert (s + rest)[n + Next(rest).1..] == rest[Next(rest).1..];
    }
  }

  /** The line on which every unclean line goes wrong. */
  const PROBE := " \""

  /** A missing quote is supplied by the probe. */
  lemma InvalidMends(s: string)
    requires Next(s).0 == Some(Invalid)
    ensures Next(s + PROBE).0 != Some(Invalid)
  {
    var k0 := Find(s, 0, NotSpace);
    var k := Find(s, k0, KeyEnd);
    FindFinds(s, k0, KeyEnd);
    FindLocal(s, PROBE, 0, NotSpace);
    FindLocal(s, PROBE, k0, KeyEnd);
    FindPast(s, PROBE, k + 2, Quote);
    FindIs(PROBE, 0, Quote, 1);
  }

  lemma ProbeParses()
    ensures Parse(PROBE) == [Good(Entry("\"", None))]
  {
    FindIs(PROBE, 0, NotSpace, 1);
    FindIs(PROBE, 1, KeyEnd, 2);
    assert PROBE[1..2] == "\"";
    FindIs("", 0, NotSpace, 0);
    FindIs("", 0, KeyEnd, 0);
    assert PROBE[2..] == "";
  }

  lemma {:induction false} UncleanFails(s: string)
    requires !Clean(s)
    ensures Parse(s + PROBE) != Parse(s) + Parse(PROBE)
    decreases |s|
  {
    hide Next;
    ProbeParses();
    var (item, n) := Next(s);
    if item == Some(Invalid) {
      InvalidMends(s);
      assert (Parse(s) + Parse(PROBE))[0] == Invalid;
      assert Parse(s + PROBE) != [] ==> Parse(s + PROBE)[0] != Invalid;
    } else {
      if item.Some? || n < |s| {
        NextLocal(s, PROBE);
      }
      if item.Some? {
        assert (s + PROBE)[n..] == s[n..] + PROBE;
        UncleanFails(s[n..]);
        var x := [item.value];
        assert (x + Parse(s[n..] + PROBE))[1..] == Parse(s[n..] + PROBE);
        assert (x + Parse(s[n..]) + Parse(PROBE))[1..] == Parse(s[n..]) + Parse(PROBE);
      }
    }
  }

  /** Clean lines, and no others, may be extended: what is added is then parsed on its own. */
  lemma ExtendsIff(s: string)
    ensures Clean(s) <==> forall t :: Parse(s + (" " + t)) == Parse(s) + Parse(" " + t)
  {
    hide Next;
    if Clean(s) {
      forall t ensures Parse(s + (" " + t)) == Parse(s) + Parse(" " + t) {
        ParseAppend(s, " " + t);
      }
    } else {
      UncleanFails(s);
      assert PROBE == " " + "\"";
    }
  }

  // ----- White space at either end -----------------------------------------------------------

  predicate Blank(ws: string) {
    forall i :: 0 <= i < |ws| ==> IsSpace(ws[i])
  }

  lemma BlankNext(ws: string)
    requires Blank(ws)
    ensures Next(ws) == (None, |ws|)
  {
    FindIs(ws, 0, NotSpace, |ws|);
  }

  lemma LeadingSpace(ws: string, s: string)
    requires Blank(ws)
    ensures Parse(ws + s) == Parse(s) && Unparsed(ws + s) == Unparsed(s)
  {
    BlankNext(ws);
    hide Next;
    NextPast(ws, s);
    assert (ws + s)[|ws| + Next(s).1..] == s[Next(s).1..];
  }

  lemma InvalidStays(s: string, ws: string)
    requires Blank(ws) && Next(s).0 == Some(Invalid)
    ensures Next(s + ws) == (Some(Invalid), |s + ws|) && Next(s).1 == |s|
  {
    var k0 := Find(s, 0, NotSpace);
    var k := Find(s, k0, KeyEnd);
    FindFinds(s, k0, KeyEnd);
    FindLocal(s, ws, 0, NotSpace);
    FindLocal(s, ws, k0, KeyEnd);
    FindPast(s, ws, k + 2, Quote);
    FindIs(ws, 0, Quote, |ws|);
  }

  lemma {:induction false} TrailingSpace(s: string, ws: string)
    requires Blank(ws)
    ensures Parse(s + ws) == Parse(s)
    decreases |s|
  {
    hide Next;
    var (item, n) := Next(s);
    if item == Some(Invalid) {
      InvalidStays(s, ws);
      assert (s + ws)[|s + ws|..] == s[n..] == "";
    } else if item.None? && n == |s| {
      NextPast(s, ws);
      BlankNext(ws);
    } else {
      NextLocal(s, ws);
      assert (s + ws)[n..] == s[n..] + ws;
      if item.Some? {
        TrailingSpace(s[n..], ws);
      }
    }
  }

  /** The text without the white space at its ends. */
  function Trim(s: string): (r: string)
    ensures r != "" ==> !IsSpace(r[0]) && !IsSpace(r[|r| - 1])
  {
    if s != "" && IsSpace(s[0]) then Trim(s[1..])
    else if s != "" && IsSpace(s[|s| - 1]) then Trim(s[..|s| - 1])
    else s
  }

  lemma {:induction false} TrimCuts(s: string) returns (a: string, b: string)
    ensures Blank(a) && Blank(b) && s == a + Trim(s) + b
  {
    hide IsSpace;
    if s != "" && IsSpace(s[0]) {
      var a', b' := TrimCuts(s[1..]);
      a, b := [s[0]] + a', b';
      assert s == [s[0]] + (a' + Trim(s) + b');
    } else if s != "" && IsSpace(s[|s| - 1]) {
      var a', b' := TrimCuts(s[..|s| - 1]);
      a, b := a', b' + [s[|s| - 1]];
      assert s == (a' + Trim(s) + b') + [s[|s| - 1]];
    } else {
      a, b := "", "";
    }
  }

  lemma TrimParses(s: string)
    ensures Parse(Trim(s)) == Parse(s)
  {
    hide Next;
    var a, b := TrimCuts(s);
    TrailingSpace(a + Trim(s), b);
    LeadingSpace(a, Trim(s));
  }

  // ----- Entries and their text --------------------------------------------------------------

  predicate Lacks(s: string, stop: Mark) {
    forall i :: 0 <= i < |s| ==> !stop.At(s[i])
  }

  /** What can be written without quotes. */
  predicate Plain(e: Entry) {
    && e.key != "" && Lacks(e.key, KeyEnd)
    && (e.value.Some? ==> Lacks(e.value.value, Space) && (e.value.value != "" ==> e.value.value[0] != '"'))
  }

  lemma PlainNext(e: Entry)
    requires Plain(e)
    ensures Next(Display(e)) == (Some(Good(e)), |Display(e)|)
  {
    var s := Display(e);
    var k := |e.key|;
    FindIs(s, 0, NotSpace, 0);
    FindIs(s, 0, KeyEnd, k);
    assert s[0..k] == e.key;
    if e.value.Some? {
      assert s[k] == '=' && s[k + 1..|s|] == e.value.value;
      assert k + 1 < |s| ==> s[k + 1] == e.value.value[0];
      FindIs(s, k + 1, Space, |s|);
    }
  }

  /** In quotes, a value may hold anything but a quote; it ends with the quote, whatever follows. */
  lemma QuotedNext(key: string, value: string, rest: string)
    requires key != "" && Lacks(key, KeyEnd) && '"' !in value
    ensures Next(key + "=\"" + value + "\"" + rest) == (Some(Good(Entry(key, Some(value)))), |key| + |value| + 3)
    ensures var open := key + "=\"" + value; Next(open) == (Some(Invalid), |open|)
  {
    QuotedParts(key, value, "\"" + rest);
    assert key + "=\"" + value + "\"" + rest == key + "=\"" + value + ("\"" + rest);
    QuotedParts(key, value, "");
    assert key + "=\"" + value + "" == key + "=\"" + value;
  }

  lemma QuotedParts(key: string, value: string, rest: string)
    requires key != "" && Lacks(key, KeyEnd) && '"' !in value && (rest != "" ==> rest[0] == '"')
    ensures var s, q := key + "=\"" + value + rest, |key| + 2 + |value|;
            Next(s) == if rest == "" then (Some(Invalid), |s|) else (Some(Good(Entry(key, Some(value)))), q + 1)
  {
    hide Find;
    var s, k := key + "=\"" + value + rest, |key|;
    FindIs(s, 0, NotSpace, 0);
    FindIs(s, 0, KeyEnd, k);
    assert s[0..k] == key && s[k] == '=' && s[k + 1] == '"';
    var q := k + 2 + |value|;
    assert forall i :: k + 2 <= i < q ==> s[i] == value[i - k - 2];
    FindIs(s, k + 2, Quote, q);
    assert s[k + 2..q] == value;
  }

  lemma NextPlain(e: Entry)
    requires Next(Display(e)).0 == Some(Good(e))
    ensures Plain(e)
  {
    hide Find;
    var s := Display(e);
    var k0 := Find(s, 0, NotSpace);
    var k := Find(s, k0, KeyEnd);
    FindFinds(s, 0, NotSpace);
    FindFinds(s, k0, KeyEnd);
    assert e.key == s[k0..k];
    assert s[0] == e.key[0] == s[k0];
    if e.value.Some? {
      assert s[k + 1..] == e.value.value;
      FindFinds(s, k + 1, Space);
    }
  }

  /** An entry survives being written and parsed exactly when it is plain. */
  lemma EntryRoundTripIff(e: Entry)
    ensures Parse(Display(e)) == [Good(e)] <==> Plain(e)
    ensures Plain(e) ==> Clean(Display(e))
  {
    hide Next;
    var s := Display(e);
    BlankNext("");
    if Plain(e) {
      PlainNext(e);
      assert s[|s|..] == "" && Unparsed("") == "";
    } else if Parse(s) == [Good(e)] {
      assert Parse(s)[0] == Good(e);
      NextPlain(e);
    }
  }

  /** The line to which entries are added one by one, each after a space. */
  function Line(es: seq<Entry>): string {
    if es == [] then "" else Line(es[..|es| - 1]) + (" " + Display(es[|es| - 1]))
  }

  function Goods(es: seq<Entry>): seq<Item> {
    seq(|es|, i requires 0 <= i < |es| => Good(es[i]))
  }

  /** Extending a clean line by a clean text keeps it clean. */
  lemma CleanAppend(s: string, t: string)
    requires Clean(s) && Clean(t)
    ensures Parse(s + (" " + t)) == Parse(s) + Parse(t) && Clean(s + (" " + t))
  {
    hide Next;
    LeadingSpace(" ", t);
    ParseAppend(s, " " + t);
  }

  /** Every list of plain entries can be read back from its line. */
  lemma {:induction false} LineRoundTrip(es: seq<Entry>)
    requires forall e :: e in es ==> Plain(e)
    ensures Parse(Line(es)) == Goods(es) && Clean(Line(es))
  {
    hide Next;
    if es == [] {
      BlankNext("");
    } else {
      var front, last := es[..|es| - 1], es[|es| - 1];
      LineRoundTrip(front);
      EntryRoundTripIff(last);
      CleanAppend(Line(front), Display(last));
      assert Goods(front) + [Good(last)] == Goods(es);
    }
  }
}
