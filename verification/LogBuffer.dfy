/** The on-screen log: appended to message by message, cut at line boundaries to 4000 bytes, and
    handed over from a pending buffer to the window. */
module LogBuffer {
  import opened Prelude
  import opened Octets

  const LIMIT := 4000

  /** Does the cut, if one is needed, fall between two characters? */
  predicate CutFits(s: seq<Octet>) {
    |s| > LIMIT ==> IsBoundary(s, |s| - LIMIT)
  }

  function Truncate(s: seq<Octet>): seq<Octet> {
    if |s| <= LIMIT then s
    else
      var drain := |s| - LIMIT;
      var newline := IndexOf(s[drain..], LF);
      if newline < LIMIT then s[drain + newline + 1..] else s[drain..]
  }

  datatype Level = ERROR | WARN | INFO | DEBUG | TRACE

  predicate Enabled(level: Level) {
    level == ERROR || level == WARN || level == INFO
  }

  /** `format!("[{:5}]: {}\n", level, args)` */
  function Format(level: Level, args: seq<Octet>): (msg: seq<Octet>)
    ensures |msg| == |args| + 10 && msg[|msg| - 1] == LF
  {
    var name := match level
      case ERROR => "[ERROR]: "
      case WARN => "[WARN ]: "
      case INFO => "[INFO ]: "
      case DEBUG => "[DEBUG]: "
      case TRACE => "[TRACE]: ";
    Ascii(name) + args + [LF]
  }

  /** The levels from the gravest on. */
  function Rank(level: Level): nat {
    match level
    case ERROR => 1
    case WARN => 2
    case INFO => 3
    case DEBUG => 4
    case TRACE => 5
  }

  /** Exactly the messages up to the level of information are stored. */
  lemma EnabledIff(level: Level)
    ensures Enabled(level) <==> Rank(level) <= Rank(INFO)
  {
  }

  function LevelName(level: Level): string {
    match level
    case ERROR => "ERROR"
    case WARN => "WARN"
    case INFO => "INFO"
    case DEBUG => "DEBUG"
    case TRACE => "TRACE"
  }

  /** A line is the name of the level in brackets, padded to five characters, a colon and a blank, the
      text and a newline. */
  lemma FormatMeaning(level: Level, args: seq<Octet>)
    ensures Format(level, args) ==
            Ascii("[") + Ascii(LevelName(level)) + seq(5 - |LevelName(level)|, _ => 32) + Ascii("]: ") +
            args + Ascii("\n")
  {
  }

  /** What a truncation keeps: everything if it is short enough; otherwise what follows the first newline
      in the last 4000 bytes; and those 4000 bytes if there is none. */
  lemma TruncateMeaning(s: seq<Octet>, k: nat)
    ensures |s| <= 4000 ==> Truncate(s) == s
    ensures |s| > 4000 && LF !in s[|s| - 4000..] ==> Truncate(s) == s[|s| - 4000..]
    ensures |s| - 4000 <= k < |s| && |s| > 4000 && s[k] == LF && LF !in s[|s| - 4000..k] ==>
              Truncate(s) == s[k + 1..]
  {
    if |s| > 4000 {
      var tail := s[|s| - 4000..];
      var newline := IndexOf(tail, LF);
      if |s| - 4000 <= k < |s| && s[k] == LF && LF !in s[|s| - 4000..k] {
        var n := k - (|s| - 4000);
        assert tail[n] == LF;
        forall i | 0 <= i < n ensures tail[i] != LF {
          assert tail[i] in s[|s| - 4000..k];
        }
        IndexOfUnique(tail, LF, n);
      }
    }
  }

  /** What happens to the logger: a message, or the handover to the window. */
  datatype LogEvent = Message(level: Level, args: seq<Octet>) | Handover

  ghost predicate Writes(e: LogEvent) {
    e.Message? && Enabled(e.level)
  }

  /** What one event leaves stored. */
  ghost function AfterEvent(stored: seq<Octet>, e: LogEvent): seq<Octet> {
    if Writes(e) then Truncate(stored + Format(e.level, e.args)) else stored
  }

  ghost predicate EventFits(stored: seq<Octet>, e: LogEvent) {
    Writes(e) ==> CutFits(stored + Format(e.level, e.args))
  }

  /** What is stored after some events. */
  ghost function StoredAfter(events: seq<LogEvent>): seq<Octet> {
    if events == [] then [] else AfterEvent(StoredAfter(events[..|events| - 1]), events[|events| - 1])
  }

  /** No cut that these events need falls inside a character. */
  ghost predicate AllFit(events: seq<LogEvent>) {
    events != [] ==>
      var front := events[..|events| - 1];
      AllFit(front) && EventFits(StoredAfter(front), events[|events| - 1])
  }

  lemma EventStep(events: seq<LogEvent>, i: nat)
    requires i < |events|
    ensures StoredAfter(events[..i + 1]) == AfterEvent(StoredAfter(events[..i]), events[i])
    ensures AllFit(events[..i + 1]) <==> AllFit(events[..i]) && EventFits(StoredAfter(events[..i]), events[i])
    ensures Handover in events[..i + 1] <==> Handover in events[..i] || events[i].Handover?
  {
    assert events[..i + 1][..i] == events[..i];
    assert events[..i + 1] == events[..i] + [events[i]];
  }

  lemma {:induction false} FitsPrefix(events: seq<LogEvent>, n: nat)
    requires n <= |events|
    ensures AllFit(events) ==> AllFit(events[..n])
  {
    if n < |events| {
      FitsPrefix(events[..|events| - 1], n);
      assert events[..|events| - 1][..n] == events[..n];
    } else {
      assert events[..n] == events;
    }
  }

  /** The text of all messages that the logger does not ignore. */
  ghost function Stream(events: seq<LogEvent>): seq<Octet> {
    if events == [] then []
    else
      var last := events[|events| - 1];
      Stream(events[..|events| - 1]) +
      if Writes(last) then Format(last.level, last.args) else []
  }

  /** The window is created once at most. */
  ghost predicate OneHandover(events: seq<LogEvent>) {
    forall i, j :: 0 <= i < j < |events| && events[i].Handover? ==> !events[j].Handover?
  }

  class Logger {
    /** `PENDING_LOGS` */
    var pending: Option<seq<Octet>>
    /** The log text of the window, once there is one. */
    var window: Option<seq<Octet>>

    /** Everything that is stored, oldest first. */
    ghost function Stored(): seq<Octet>
      reads this
    {
      (if window.Some? then window.value else []) + (if pending.Some? then pending.value else [])
    }

    constructor ()
      ensures pending == None && window == None
      ensures Stored() == []
    {
      pending, window := None, None;
    }

    /** `ok` is false if the call panics, on slicing inside a character. */
    method Log(level: Level, args: seq<Octet>) returns (ok: bool)
      modifies this
      ensures window.Some? == old(window.Some?)
      ensures !Enabled(level) ==> ok && unchanged(this)
      ensures Enabled(level) ==> ok == CutFits(old(Stored()) + Format(level, args))
      ensures Enabled(level) && ok ==> Stored() == Truncate(old(Stored()) + Format(level, args))
      ensures Enabled(level) && ok && window.Some? ==> pending == None
    {
      if !Enabled(level) {
        return true;
      }
      var msg := Format(level, args);
      if window.Some? {
        var currentLogs := window.value;
        if pending.Some? {
          currentLogs := currentLogs + pending.value;
          pending := None;
        }
        currentLogs := currentLogs + msg;
        assert currentLogs == old(Stored()) + msg;
        ok, currentLogs := KeepEnd(currentLogs);
        if ok {
          window := Some(currentLogs);
        }
      } else {
        if pending.None? {
          pending := Some([]);
        }
        var logs := pending.value + msg;
        assert logs == old(Stored()) + msg;
        ok, logs := KeepEnd(logs);
        if ok {
          pending := Some(logs);
        }
      }
    }

    /** The truncation, the same in both places. */
    method KeepEnd(logs: seq<Octet>) returns (ok: bool, kept: seq<Octet>)
      ensures ok == CutFits(logs)
      ensures ok ==> kept == Truncate(logs)
    {
      kept := logs;
      if |kept| > LIMIT {
        var drainIndex := |kept| - LIMIT;
        if !IsBoundary(kept, drainIndex) {
          return false, [];
        }
        var nextNl := IndexOf(kept[drainIndex..], LF);
        if nextNl < |kept[drainIndex..]| {
          kept := kept[drainIndex + nextNl + 1..];
        } else {
          kept := kept[drainIndex..];
        }
      }
      return true, kept;
    }

    /** `efi_main` creates the window and moves the pending text into it. */
    method InstallWindow()
      requires window == None
      modifies this
      ensures window.Some? && pending == None
      ensures Stored() == old(Stored())
    {
      window := Some([]);
      if pending.Some? {
        window := pending;
        pending := None;
      }
    }

    /** One event; `ok` is false if it panics. */
    method Perform(e: LogEvent) returns (ok: bool)
      requires e.Handover? ==> window == None
      modifies this
      ensures ok == EventFits(old(Stored()), e)
      ensures ok ==> Stored() == AfterEvent(old(Stored()), e)
      ensures ok ==> (window.Some? <==> old(window).Some? || e.Handover?)
    {
      match e {
        case Message(level, args) =>
          ok := Log(level, args);
        case Handover =>
          InstallWindow();
          ok := true;
      }
    }

    /** The logger from its creation on, through any events; `ok` is false if one of them panics. */
    method Replay(events: seq<LogEvent>) returns (ok: bool)
      requires window == None && pending == None && OneHandover(events)
      modifies this
      ensures ok <==> AllFit(events)
      ensures ok ==> (window.Some? <==> Handover in events)
      ensures ok ==> KeepsAllItCan(Stored(), Stream(events))
    {
      for i := 0 to |events|
        invariant AllFit(events[..i])
        invariant Stored() == StoredAfter(events[..i])
        invariant window.Some? <==> Handover in events[..i]
      {
        EventStep(events, i);
        ok := Perform(events[i]);
        if !ok {
          FitsPrefix(events, i + 1);
          return;
        }
      }
      assert events[..|events|] == events;
      LogKeepsAllItCan(events);
      ok := true;
    }
  }

  // ---- What is kept of the whole stream ----

  /** Position `k` of the stream starts a line. */
  ghost predicate LineStart(stream: seq<Octet>, k: nat) {
    k <= |stream| && (k == 0 || stream[k - 1] == LF)
  }

  /** `stored` is a suffix of the stream that starts at a line, has at most 4000 bytes, and contains
      every such suffix of fewer than 4000. */
  ghost predicate KeepsAllItCan(stored: seq<Octet>, stream: seq<Octet>) {
    && |stored| <= |stream|
    && stored == stream[|stream| - |stored|..]
    && LineStart(stream, |stream| - |stored|)
    && |stored| <= 4000
    && forall k: nat :: LineStart(stream, k) && |stream| - k < 4000 ==> |stream| - |stored| <= k
  }

  /** One message keeps this, and the fallback for text without a newline is not taken. */
  lemma AppendKeeps(stored: seq<Octet>, stream: seq<Octet>, msg: seq<Octet>)
    requires KeepsAllItCan(stored, stream)
    requires msg != [] && msg[|msg| - 1] == LF
    ensures KeepsAllItCan(Truncate(stored + msg), stream + msg)
    ensures |stored + msg| > LIMIT ==> IndexOf((stored + msg)[|stored + msg| - LIMIT..], LF) < LIMIT
  {
    var all, s := stream + msg, stored + msg;
    var start := |stream| - |stored|;
    assert s == all[start..];
    if |s| <= LIMIT {
      forall k: nat | LineStart(all, k) && |all| - k < LIMIT ensures start <= k {
        if k <= |stream| {
          assert LineStart(stream, k);
        }
      }
    } else {
      var drain := |s| - LIMIT;
      var tail := s[drain..];
      var newline := IndexOf(tail, LF);
      assert tail[LIMIT - 1] == LF;
      var cut := start + drain + newline + 1;
      assert Truncate(s) == all[cut..];
      assert all[cut - 1] == tail[newline];
      forall k: nat | LineStart(all, k) && |all| - k < LIMIT ensures cut <= k {
        assert tail[k - 1 - start - drain] == all[k - 1];
      }
    }
  }

  /** Log buffer maximality: after any messages, and wherever the handover falls among them, what is
      stored is as much of the end of the whole stream as whole lines allow. */
  lemma {:induction false} LogKeepsAllItCan(events: seq<LogEvent>)
    ensures KeepsAllItCan(StoredAfter(events), Stream(events))
  {
    if events != [] {
      var front, last := events[..|events| - 1], events[|events| - 1];
      LogKeepsAllItCan(front);
      if Writes(last) {
        AppendKeeps(StoredAfter(front), Stream(front), Format(last.level, last.args));
      } else {
        assert Stream(front) + [] == Stream(front);
      }
    }
  }

  // ---- Which messages can be cut ----

  ghost predicate AllAscii(s: seq<Octet>) {
    forall i :: 0 <= i < |s| ==> s[i] < 0x80
  }

  lemma FormatAscii(level: Level, args: seq<Octet>)
    requires AllAscii(args)
    ensures AllAscii(Format(level, args))
  {
  }

  /** With ASCII messages no call to the logger panics. */
  lemma {:induction false} AsciiAlwaysFits(events: seq<LogEvent>)
    requires forall e :: e in events && e.Message? ==> AllAscii(e.args)
    ensures AllAscii(StoredAfter(events)) && AllFit(events)
  {
    if events != [] {
      var front, last := events[..|events| - 1], events[|events| - 1];
      assert last in events;
      AsciiAlwaysFits(front);
      if Writes(last) {
        FormatAscii(last.level, last.args);
        var s := StoredAfter(front) + Format(last.level, last.args);
        assert AllAscii(s);
        assert |s| > LIMIT ==> s[|s| - LIMIT] < 0x80;
      }
    }
  }

  /** A first message of 2000 two-byte characters does panic: the cut falls inside one of them. */
  lemma NonAsciiCanPanic()
    ensures var args := seq(4000, i => if i % 2 == 0 then 0xC3 else 0xA9);
            !AllFit([Message(INFO, args)])
  {
    var args := seq(4000, i => if i % 2 == 0 then 0xC3 else 0xA9);
    var msg, events := Format(INFO, args), [Message(INFO, args)];
    assert msg[|msg| - LIMIT] == args[1] == 0xA9;
    assert events[..0] == [];
    assert StoredAfter(events[..0]) + msg == msg;
  }
}
