/**
 * FileWatcherService: the extension filter and the per-key event loop. The
 * watch registration, the blocking take()/reset() cycle and the thread are
 * outside the model; the extension list is a parameter, and the console line
 * printed for an event is represented by the event itself.
 */
module FileWatcher {
  import opened Wrappers

  /** The kinds of StandardWatchEventKinds. OVERFLOW is delivered whether or not it was registered. */
  datatype WatchEventKind = ENTRY_CREATE | ENTRY_DELETE | ENTRY_MODIFY | OVERFLOW

  /** STANDARD_WATCH_EVENT_KINDS: create, delete and modify, once each. */
  function StandardWatchEventKinds(): (kinds: seq<WatchEventKind>)
    ensures |kinds| == 3
    ensures ENTRY_CREATE in kinds && ENTRY_DELETE in kinds && ENTRY_MODIFY in kinds && OVERFLOW !in kinds
  {
    [ENTRY_CREATE, ENTRY_DELETE, ENTRY_MODIFY]
  }

  /** A polled event; the context (the affected path) may be null, as it is for OVERFLOW. */
  datatype WatchEvent = WatchEvent(kind: WatchEventKind, context: Option<string>)

  /** `String.endsWith`. */
  predicate EndsWith(s: string, suffix: string) {
    |suffix| <= |s| && s[|s| - |suffix|..] == suffix
  }

  /** A path passes when no extensions are configured or it ends with one of them. */
  predicate InExtensionFilter(fileExtensions: seq<string>, path: string) {
    |fileExtensions| == 0 || exists i :: 0 <= i < |fileExtensions| && EndsWith(path, fileExtensions[i])
  }

  /** fileIsInExtensionFilter: a search over the extensions with early return. */
  method FileIsInExtensionFilter(fileExtensions: seq<string>, path: string) returns (passes: bool)
    ensures |fileExtensions| == 0 ==> passes
    ensures |fileExtensions| > 0 ==> (passes <==> exists ext :: ext in fileExtensions && EndsWith(path, ext))
    ensures passes == InExtensionFilter(fileExtensions, path)
  {
    if |fileExtensions| < 1 {
      return true;
    }
    for i := 0 to |fileExtensions|
      invariant forall j :: 0 <= j < i ==> !EndsWith(path, fileExtensions[j])
    {
      if |fileExtensions[i]| <= |path| && path[|path| - |fileExtensions[i]|..] == fileExtensions[i] {
        assert fileExtensions[i] in fileExtensions;
        return true;
      }
    }
    return false;
  }

  /** A non-empty list only widens when an extension is added. */
  lemma FilterMonotone(fileExtensions: seq<string>, ext: string, path: string)
    requires |fileExtensions| > 0
    ensures InExtensionFilter(fileExtensions, path) ==> InExtensionFilter(fileExtensions + [ext], path)
  {
    if InExtensionFilter(fileExtensions, path) {
      var i :| 0 <= i < |fileExtensions| && EndsWith(path, fileExtensions[i]);
      assert (fileExtensions + [ext])[i] == fileExtensions[i];
    }
  }

  /** From the empty list the first extension narrows: every path passed before, not every path after. */
  lemma FirstExtensionNarrows()
    ensures InExtensionFilter([], "notes.md")
    ensures !InExtensionFilter([".txt"], "notes.md")
  {
  }

  /** An event the loop reports: it has a context and that context passes the filter. */
  predicate Reported(fileExtensions: seq<string>, e: WatchEvent) {
    e.context.Some? && InExtensionFilter(fileExtensions, e.context.value)
  }

  /** The reported events among `events`, in their order. */
  function PassingEvents(fileExtensions: seq<string>, events: seq<WatchEvent>): (r: seq<WatchEvent>)
    ensures |r| <= |events|
    decreases |events|
  {
    if events == [] then []
    else
      var last := events[|events| - 1];
      PassingEvents(fileExtensions, events[..|events| - 1]) + (if Reported(fileExtensions, last) then [last] else [])
  }

  /** Exactly the reported events are kept. */
  lemma {:induction false} PassingEventsMembership(fileExtensions: seq<string>, events: seq<WatchEvent>, e: WatchEvent)
    ensures e in PassingEvents(fileExtensions, events) <==> e in events && Reported(fileExtensions, e)
    decreases |events|
  {
    if events != [] {
      var init := events[..|events| - 1];
      PassingEventsMembership(fileExtensions, init, e);
      assert events == init + [events[|events| - 1]];
    }
  }

  /** Filtering keeps order: the events of a concatenation are those of each part, in turn. */
  lemma {:induction false} PassingEventsAppend(fileExtensions: seq<string>, a: seq<WatchEvent>, b: seq<WatchEvent>)
    ensures PassingEvents(fileExtensions, a + b) == PassingEvents(fileExtensions, a) + PassingEvents(fileExtensions, b)
    decreases |b|
  {
    if b == [] {
      assert a + b == a;
    } else {
      var binit := b[..|b| - 1];
      assert (a + b)[..|a + b| - 1] == a + binit;
      assert (a + b)[|a + b| - 1] == b[|b| - 1];
      PassingEventsAppend(fileExtensions, a, binit);
    }
  }

  /** With no extensions configured, every event with a context is reported. */
  lemma {:induction false} PassingEventsNoFilter(events: seq<WatchEvent>)
    requires forall i :: 0 <= i < |events| ==> events[i].context.Some?
    ensures PassingEvents([], events) == events
    decreases |events|
  {
    if events != [] {
      PassingEventsNoFilter(events[..|events| - 1]);
    }
  }

  /** The number of leading events that have a context. */
  function ContextPrefix(events: seq<WatchEvent>): (n: nat)
    ensures n <= |events|
    ensures forall i :: 0 <= i < n ==> events[i].context.Some?
    ensures n < |events| ==> events[n].context.None?
  {
    if events == [] || events[0].context.None? then 0
    else 1 + ContextPrefix(events[1..])
  }

  /**
   * The inner loop of startWatchingDirectory over `key.pollEvents()`. A null
   * context makes `event.context().toString()` throw, which ends the loop after
   * the events before it were reported: `failed` says so.
   */
  method ReportPolledEvents(fileExtensions: seq<string>, polled: seq<WatchEvent>)
    returns (reported: seq<WatchEvent>, failed: bool)
    ensures failed <==> exists i :: 0 <= i < |polled| && polled[i].context.None?
    ensures reported == PassingEvents(fileExtensions, polled[..ContextPrefix(polled)])
  {
    reported := [];
    var i := 0;
    while i < |polled|
      invariant 0 <= i <= |polled|
      invariant forall j :: 0 <= j < i ==> polled[j].context.Some?
      invariant reported == PassingEvents(fileExtensions, polled[..i])
    {
      var event := polled[i];
      if event.context.None? {
        assert i == ContextPrefix(polled);
        return reported, true;
      }
      var passes := FileIsInExtensionFilter(fileExtensions, event.context.value);
      assert polled[..i + 1][..i] == polled[..i];
      if passes {
        reported := reported + [event];
      }
      i := i + 1;
    }
    assert polled[..i] == polled;
    failed := false;
  }
}
