/** What fastboot commands stand for: which call of the backend a text amounts to. */
module FastbootRoute {
  import opened Basics
  import opened FastbootText
  import opened Numbers
  import opened Utf8

  datatype RebootMode = Normal | Bootloader | Fastboot | Recovery

  /** What the command backend is asked to do, apart from taking over a download. */
  datatype Call =
    | GetVar(name: Bytes, args: seq<Bytes>)
    | GetVarAll
    | Flash(part: Bytes)
    | Erase(part: Bytes)
    | Upload
    | Fetch(range: FetchArgs)
    | Reboot(mode: RebootMode)
    | Boot
    | Continue
    | SetActive(slot: Bytes)
    | Oem(cmd: Bytes)

  function Name(text: Bytes): Bytes {
    Split(text, ':')[0]
  }

  /** Their backends may report success themselves, just before they leave for good. */
  predicate OkaysItself(text: Bytes) {
    Name(text) in ["boot", "reboot", "reboot-bootloader", "reboot-fastboot", "reboot-recovery"]
  }

  predicate Uploads(text: Bytes) {
    Name(text) in ["upload", "fetch"]
  }

  /** The call that a command amounts to; a download, and what is refused or answered at once, is none. */
  function Route(text: Bytes): Option<Call> {
    if !ValidUtf8(text) then None else
    var name := Name(text);
    if name == "boot" then Some(Boot)
    else if name == "continue" then Some(Continue)
    else if name == "download" then None
    else if name == "erase" then (if "erase:" <= text then Some(Erase(text[6..])) else None)
    else if name == "fetch" then (if ParseFetch(text).Some? then Some(Fetch(ParseFetch(text).value)) else None)
    else if name == "flash" then (if "flash:" <= text then Some(Flash(text[6..])) else None)
    else if name == "getvar" then RouteVariable(text)
    else if name == "reboot" then Some(Reboot(Normal))
    else if name == "reboot-bootloader" then Some(Reboot(Bootloader))
    else if name == "reboot-fastboot" then Some(Reboot(RebootMode.Fastboot))
    else if name == "reboot-recovery" then Some(Reboot(Recovery))
    else if name == "set_active" then
      var slot := NonEmpty(Split(text, ':')[1..], 0);
      if slot.Some? then Some(SetActive(slot.value)) else None
    else if name == "upload" then Some(Upload)
    else if "oem " <= text then Some(Oem(text[4..]))
    else None
  }

  function RouteVariable(text: Bytes): (call: Option<Call>)
    ensures call.Some? ==> call.value.GetVar? || call.value.GetVarAll?
  {
    var name := VariableName(text);
    if name.None? || name.value == "max-download-size" then None
    else if name.value == "all" then Some(GetVarAll)
    else Some(GetVar(name.value, Split(UpTo(text, NUL), ':')[2..]))
  }

  function Routed(text: Bytes): seq<Call> {
    if Route(text).Some? then [Route(text).value] else []
  }

  /** The commands after which the session is over. */
  predicate Leaving(text: Bytes) {
    ValidUtf8(text) && Name(text) in ["boot", "continue"]
  }

  /** Which of the names have backends that send an OKAY, or upload. */
  lemma Kinds(text: Bytes)
    ensures OkaysItself(text) ==> !Uploads(text)
    ensures Name(text) == "boot" || Name(text) == "reboot" || Name(text) == "reboot-bootloader" ==> OkaysItself(text)
    ensures Name(text) == "reboot-fastboot" || Name(text) == "reboot-recovery" ==> OkaysItself(text)
    ensures Name(text) == "upload" || Name(text) == "fetch" ==> Uploads(text)
    ensures OkaysItself(text) ==>
      Name(text) in ["boot", "reboot", "reboot-bootloader", "reboot-fastboot", "reboot-recovery"]
    ensures Uploads(text) ==> Name(text) == "upload" || Name(text) == "fetch"
  {
    hide Name;
  }

  // ----- The texts of a call -------------------------------------------------------------------

  /** The command `name`, with or without arguments. */
  predicate Headed(text: Bytes, name: Bytes) {
    text == name || name + ":" <= text
  }

  function ModeName(mode: RebootMode): Bytes {
    match mode
    case Normal => "reboot"
    case Bootloader => "reboot-bootloader"
    case Fastboot => "reboot-fastboot"
    case Recovery => "reboot-recovery"
  }

  /** The text is a command for the call, said without parsing it. */
  ghost predicate Spells(text: Bytes, call: Call) {
    match call
    case Boot => Headed(text, "boot")
    case Continue => Headed(text, "continue")
    case Upload => Headed(text, "upload")
    case Reboot(mode) => Headed(text, ModeName(mode))
    case Flash(part) => text == "flash:" + part
    case Erase(part) => text == "erase:" + part
    case Oem(cmd) => text == "oem " + cmd
    case SetActive(slot) => slot != "" && ':' !in slot && Headed(text, "set_active:" + slot)
    case Fetch(range) => exists off, size :: SpellsFetch(text, range, off, size)
    case GetVarAll => Headed(UpTo(text, NUL), "getvar:all")
    case GetVar(name, args) =>
      && name != "all" && name != "max-download-size"
      && ':' !in name && NoneIn(args, ':')
      && UpTo(text, NUL) == Join(["getvar", name] + args, ':')
  }

  predicate SpellsFetch(text: Bytes, range: FetchArgs, off: Bytes, size: Bytes) {
    && off != "" && size != "" && ':' !in off && ':' !in size
    && HexToU64(off) == Some(range.offset) && HexToU64(size) == Some(range.size)
    && text == "fetch:" + range.part + ":" + off + ":" + size
  }

  lemma NameIff(text: Bytes, name: Bytes)
    requires ':' !in name
    ensures Name(text) == name <==> Headed(text, name)
  {
    FirstPart(text, ':');
    UpToIff(text, ':', name);
    assert name + ":" == name + [':'];
  }

  /** What follows the name and its colon. */
  lemma AfterName(text: Bytes, name: Bytes, rest: Bytes)
    requires ':' !in name && text == name + ":" + rest
    ensures Split(text, ':') == [name] + Split(rest, ':') && Headed(text, name) && text[|name| + 1..] == rest
  {
    hide Split;
    assert text == name + [':'] + rest;
    SplitFirst(name, ':', rest);
  }

  lemma HeadedFurther(name: Bytes, rest: Bytes, more: Bytes)
    ensures Headed(name + ":" + rest, name + ":" + more) <==> Headed(rest, more)
  {
    var text, head := name + ":" + rest, name + ":" + more;
    assert text == name + ":" + more ==> rest == text[|name| + 1..] == more;
    if head + ":" <= text {
      assert more + ":" == (head + ":")[|name| + 1..] == text[..|head| + 1][|name| + 1..] == rest[..|more| + 1];
    }
    if more + ":" <= rest {
      assert text == name + ":" + (more + ":" + rest[|more| + 1..]);
      assert head + ":" == text[..|head| + 1];
    }
  }

  /** The first argument is what follows the name, up to the next colon. */
  lemma ArgumentIff(text: Bytes, name: Bytes, arg: Bytes)
    requires ':' !in name && Name(text) == name
    ensures NonEmpty(Split(text, ':')[1..], 0) == Some(arg) <==>
            arg != "" && ':' !in arg && Headed(text, name + ":" + arg)
  {
    hide Split;
    NameIff(text, name);
    if text == name {
      SplitPlain(text, ':');
    } else {
      var rest := text[|name| + 1..];
      assert text == name + ":" + rest;
      AfterName(text, name, rest);
      FirstPart(rest, ':');
      UpToIsPrefix(rest, ':');
      if ':' !in arg {
        UpToIff(rest, ':', arg);
        assert arg + ":" == arg + [':'];
        HeadedFurther(name, rest, arg);
      }
    }
  }

  lemma SetActiveIff(text: Bytes, slot: Bytes)
    requires Name(text) == "set_active"
    ensures NonEmpty(Split(text, ':')[1..], 0) == Some(slot) <==> Spells(text, SetActive(slot))
  {
    hide Split, NonEmpty, Headed, Name;
    ArgumentIff(text, "set_active", slot);
    assert "set_active:" + slot == "set_active" + ":" + slot;
  }

  /** The size of a download is the first argument, in hexadecimal. */
  lemma DownloadSizeIff(text: Bytes, size: nat)
    requires Name(text) == "download"
    ensures DownloadSize(text) == Some(size) <==>
            exists arg ::
              arg != "" && ':' !in arg && Headed(text, "download" + ":" + arg) && HexToU64(arg) == Some(size)
  {
    hide Split, Headed, Name, HexToU64;
    var first := NonEmpty(Split(text, ':')[1..], 0);
    if first.Some? {
      ArgumentIff(text, "download", first.value);
    }
    forall arg | arg != "" && ':' !in arg && Headed(text, "download" + ":" + arg) ensures first == Some(arg) {
      ArgumentIff(text, "download", arg);
    }
  }

  lemma FetchIff(text: Bytes, range: FetchArgs)
    ensures ParseFetch(text) == Some(range) <==> Spells(text, Fetch(range))
  {
    hide ParseFetch, HexToU64;
    forall off, size | SpellsFetch(text, range, off, size) ensures ParseFetch(text) == Some(range) {
      FetchRoundTrip(range.part, off, size);
    }
    if ParseFetch(text).Some? {
      var off, size := FetchParsed(text);
      assert ParseFetch(text) == Some(range) ==> SpellsFetch(text, range, off, size);
    }
  }

  lemma FetchParsed(text: Bytes) returns (off: Bytes, size: Bytes)
    requires ParseFetch(text).Some?
    ensures SpellsFetch(text, ParseFetch(text).value, off, size)
  {
    hide Split, HexToU64, Join;
    var parts := Split(text, ':');
    var n := |parts|;
    off, size := parts[n - 2], parts[n - 1];
    JoinSplit(text, ':');
    assert parts == parts[..n - 2] + [off] + [size];
    JoinSnoc(parts[..n - 2] + [off], size, ':');
    JoinSnoc(parts[..n - 2], off, ':');
    var head := Join(parts[..n - 2], ':');
    assert text == head + ":" + off + ":" + size;
    SplitLength(text, ':');
    LastPartsFit(text);
    var part := head[6..];
    assert |head| >= 6;
    assert head == "fetch:" + part;
    assert text[6..][..|part|] == part;
  }

  /** The variable and its arguments are read from the text up to the first NUL. */
  lemma VariableText(text: Bytes)
    ensures var v := UpTo(text, NUL);
            && ("getvar:" <= v <==> "getvar:" <= text)
            && (Headed(text, "getvar") ==> Headed(v, "getvar"))
  {
    UpToIsPrefix(text, NUL);
    if text == "getvar" {
      UpToPast("getvar", "", NUL);
      assert "getvar" + "" == "getvar" == "getvar" + UpTo("", NUL);
    } else if "getvar:" <= text {
      var rest := text[7..];
      assert text == "getvar:" + rest;
      UpToPast("getvar:", rest, NUL);
    }
  }

  lemma SpelledVariable(text: Bytes, call: Call)
    requires call.GetVar? || call.GetVarAll?
    requires Spells(text, call)
    ensures "getvar:" <= UpTo(text, NUL)
  {
    if call.GetVar? {
      var parts := ["getvar", call.name] + call.args;
      assert Join(parts, ':') == "getvar" + [':'] + Join(parts[1..], ':');
    }
  }

  lemma AllIff(v: Bytes)
    requires Headed(v, "getvar")
    ensures |Split(v, ':')| >= 2 && Split(v, ':')[1] == "all" <==> Headed(v, "getvar:all")
    ensures |Split(v, ':')| >= 2 <==> v != "getvar"
    ensures Split(v, ':')[0] == "getvar"
  {
    hide Split;
    if v == "getvar" {
      SplitPlain(v, ':');
    } else {
      var rest := v[7..];
      assert v == "getvar" + ":" + rest;
      AfterName(v, "getvar", rest);
      NameIff(rest, "all");
      HeadedFurther("getvar", rest, "all");
      assert "getvar:all" == "getvar" + ":" + "all";
    }
  }

  lemma VariableIff(text: Bytes, call: Call)
    requires Headed(text, "getvar")
    ensures RouteVariable(text) == Some(call) <==> (call.GetVar? || call.GetVarAll?) && Spells(text, call)
  {
    hide Split, Join, Headed;
    var v := UpTo(text, NUL);
    VariableText(text);
    AllIff(v);
    var parts := Split(v, ':');
    if call.GetVar? {
      SplitIff(v, ':', ["getvar", call.name] + call.args);
      PartsNamed(parts, "getvar", call.name, call.args);
    }
    if RouteVariable(text).Some? {
      JoinSplit(v, ':');
    }
  }

  lemma PartsNamed(parts: seq<Bytes>, a: Bytes, b: Bytes, rest: seq<Bytes>)
    ensures parts == [a, b] + rest <==> |parts| >= 2 && parts[0] == a && parts[1] == b && parts[2..] == rest
    ensures NoneIn([a, b] + rest, ':') <==> ':' !in a && ':' !in b && NoneIn(rest, ':')
  {
    var all := [a, b] + rest;
    if |parts| >= 2 && parts[0] == a && parts[1] == b && parts[2..] == rest {
      assert parts == all;
    }
    assert all[0] == a && all[1] == b && forall i :: 0 <= i < |rest| ==> all[i + 2] == rest[i];
    if NoneIn(all, ':') {
      forall i | 0 <= i < |rest| ensures ':' !in rest[i] {
        assert ':' !in all[i + 2];
      }
    }
  }

  function CallName(call: Call): Bytes {
    match call
    case Boot => "boot"
    case Continue => "continue"
    case Upload => "upload"
    case Reboot(mode) => ModeName(mode)
    case Flash(_) => "flash"
    case Erase(_) => "erase"
    case SetActive(_) => "set_active"
    case Fetch(_) => "fetch"
    case GetVarAll => "getvar"
    case GetVar(_, _) => "getvar"
    case Oem(_) => "oem"
  }

  lemma SpelledName(text: Bytes, call: Call)
    requires Spells(text, call) && !call.Oem?
    ensures Name(text) == CallName(call)
  {
    hide Name, Spells, Headed;
    SpelledHead(text, call);
    NameIsPlain(call);
    NameIff(text, CallName(call));
  }

  lemma NameIsPlain(call: Call)
    ensures ':' !in CallName(call)
  {
  }

  lemma HeadedBy(name: Bytes, rest: Bytes)
    ensures Headed(name + ":" + rest, name)
  {
  }

  lemma SpelledHead(text: Bytes, call: Call)
    requires Spells(text, call) && !call.Oem?
    ensures Headed(text, CallName(call))
  {
    hide Join, HexToU64, UpTo, Headed;
    match call {
      case Flash(part) => HeadedBy("flash", part); assert "flash:" + part == "flash" + ":" + part;
      case Erase(part) => HeadedBy("erase", part); assert "erase:" + part == "erase" + ":" + part;
      case SetActive(slot) => SlotHead(text, slot);
      case Fetch(_) => FetchHead(text, call.range);
      case GetVar(_, _) => VariableHead(text, call);
      case GetVarAll => VariableHead(text, call);
      case _ =>
    }
  }

  lemma SlotHead(text: Bytes, slot: Bytes)
    requires Headed(text, "set_active:" + slot)
    ensures Headed(text, "set_active")
  {
    assert "set_active" + ":" <= text;
  }

  lemma FetchHead(text: Bytes, range: FetchArgs)
    requires Spells(text, Fetch(range))
    ensures Headed(text, "fetch")
  {
    hide HexToU64;
    var off, size :| SpellsFetch(text, range, off, size);
    assert "fetch" + ":" <= text;
  }

  lemma VariableHead(text: Bytes, call: Call)
    requires (call.GetVar? || call.GetVarAll?) && Spells(text, call)
    ensures Headed(text, "getvar")
  {
    SpelledVariable(text, call);
    VariableText(text);
    assert "getvar:" == "getvar" + ":";
  }

  lemma OemName(text: Bytes)
    ensures "oem " <= text ==> "oem " <= Name(text)
  {
    if "oem " <= text {
      FirstPart(text, ':');
      assert text == "oem " + text[4..];
      UpToPast("oem ", text[4..], ':');
    }
  }

  lemma Spelled(text: Bytes, call: Call)
    requires ValidUtf8(text) && Spells(text, call)
    ensures Route(text) == Some(call)
  {
    hide ValidUtf8, Split, Join, HexToU64, Name, Headed, ParseFetch, RouteVariable;
    if call.Oem? {
      OemName(text);
    } else {
      SpelledName(text, call);
    }
    match call {
      case SetActive(slot) => SetActiveIff(text, slot);
      case Fetch(range) => FetchIff(text, range);
      case GetVar(_, _) => NameIff(text, "getvar"); VariableIff(text, call);
      case GetVarAll => NameIff(text, "getvar"); VariableIff(text, call);
      case _ =>
    }
  }

  lemma NameIsHead(text: Bytes)
    ensures ':' !in Name(text) && Headed(text, Name(text))
  {
    FirstPart(text, ':');
    UpToIsPrefix(text, ':');
    NameIff(text, Name(text));
  }

  lemma Prefixed(text: Bytes, prefix: Bytes)
    requires prefix <= text
    ensures text == prefix + text[|prefix|..]
  {
  }

  lemma RoutedName(text: Bytes)
    requires Route(text).Some?
    ensures var call := Route(text).value;
      && (!call.Oem? ==> Name(text) == CallName(call))
      && (call.Oem? ==> "oem " <= text && call.cmd == text[4..])
      && (call.Flash? ==> "flash:" <= text && call.part == text[6..])
      && (call.Erase? ==> "erase:" <= text && call.part == text[6..])
      && (call.SetActive? ==> NonEmpty(Split(text, ':')[1..], 0) == Some(call.slot))
      && (call.Fetch? ==> ParseFetch(text) == Some(call.range))
      && (call.GetVar? || call.GetVarAll? ==> RouteVariable(text) == Some(call))
  {
    hide ValidUtf8, Split, Name, ParseFetch, RouteVariable, NonEmpty;
  }

  lemma RoutedIsSpelled(text: Bytes)
    requires Route(text).Some?
    ensures Spells(text, Route(text).value)
  {
    hide Route, Split, Join, HexToU64, Name, ParseFetch, RouteVariable, Headed, UpTo;
    var call := Route(text).value;
    NameIsHead(text);
    RoutedName(text);
    match call {
      case Flash(part) => Prefixed(text, "flash:");
      case Erase(part) => Prefixed(text, "erase:");
      case Oem(cmd) => Prefixed(text, "oem ");
      case SetActive(slot) => SetActiveIff(text, slot);
      case Fetch(range) => FetchIff(text, range);
      case GetVar(_, _) => VariableIff(text, call);
      case GetVarAll => VariableIff(text, call);
      case _ =>
    }
  }

  /** A text is routed to a call if and only if it spells it; so to none if and only if it spells none. */
  lemma RouteIff(text: Bytes, call: Call)
    ensures Route(text) == Some(call) <==> ValidUtf8(text) && Spells(text, call)
  {
    hide ValidUtf8, Split, Join, HexToU64, Spells;
    if ValidUtf8(text) && Spells(text, call) {
      Spelled(text, call);
    }
    if Route(text).Some? {
      RoutedIsSpelled(text);
    }
  }

  /** The session is over after the calls that hand the device on. */
  lemma LeavingIff(text: Bytes)
    ensures Leaving(text) <==> Route(text) == Some(Boot) || Route(text) == Some(Continue)
    ensures ValidUtf8(text) ==>
      (OkaysItself(text) <==> Route(text).Some? && (Route(text).value.Boot? || Route(text).value.Reboot?))
    ensures Route(text).Some? ==> (Uploads(text) <==> Route(text).value.Upload? || Route(text).value.Fetch?)
  {
    hide Name, Split, ValidUtf8, ParseFetch, RouteVariable;
  }

  // ----- Writing commands --------------------------------------------------------------------------

  /** The usual text of a call. */
  function TextOf(call: Call): Bytes {
    match call
    case Flash(part) => "flash:" + part
    case Erase(part) => "erase:" + part
    case Oem(cmd) => "oem " + cmd
    case SetActive(slot) => "set_active:" + slot
    case Fetch(range) => "fetch:" + range.part + ":" + Render(range.offset, 16) + ":" + Render(range.size, 16)
    case GetVarAll => "getvar:all"
    case GetVar(name, args) => Join(["getvar", name] + args, ':')
    case _ => CallName(call)
  }

  /** The arguments can be told apart in a text. */
  predicate Sayable(call: Call) {
    match call
    case SetActive(slot) => slot != "" && ':' !in slot
    case Fetch(range) => range.offset < U64_LIMIT && range.size < U64_LIMIT
    case GetVar(name, args) =>
      name != "all" && name != "max-download-size" && ':' !in name && NoneIn(args, ':') && NUL !in TextOf(call)
    case _ => true
  }

  /** Every call can be asked for: its text is routed to it and to no other. */
  lemma RouteInvertsText(call: Call)
    requires Sayable(call) && ValidUtf8(TextOf(call))
    ensures Route(TextOf(call)) == Some(call)
  {
    hide ValidUtf8, Route, Join, UpTo;
    SaysWhatItSpells(call);
    RouteIff(TextOf(call), call);
  }

  lemma SaysWhatItSpells(call: Call)
    requires Sayable(call)
    ensures Spells(TextOf(call), call)
  {
    hide Join, UpTo, HexToU64, Render;
    match call {
      case Fetch(range) =>
        HexPlain(range.offset);
        HexPlain(range.size);
        assert SpellsFetch(TextOf(call), range, Render(range.offset, 16), Render(range.size, 16));
      case GetVar(_, _) => UpToIff(TextOf(call), NUL, TextOf(call));
      case GetVarAll => UpToIff("getvar:all", NUL, "getvar:all");
      case _ =>
    }
  }

  lemma HexPlain(v: nat)
    requires v < U64_LIMIT
    ensures Render(v, 16) != "" && ':' !in Render(v, 16) && HexToU64(Render(v, 16)) == Some(v)
  {
    hide HexToU64, Render, Value, Weight;
    HexReadsPrinted(0, v);
    PaddedValue(0, v);
    assert Zeros(0) + Render(v, 16) == Render(v, 16);
    assert !IsDigit(':', 16) by { ColonIsNoDigit(); }
  }

  lemma ColonIsNoDigit()
    ensures !IsDigit(':', 16)
  {
  }
}
