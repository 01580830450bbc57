/**
  Envelope stripping for contents-only insertion (`th:include`): every event
  of the selected model that sits at nesting level 0 is removed, except
  unmatched close tags. This takes away each outermost open/close tag pair
  together with any level-0 text, comments or standalone tags, and keeps
  everything nested inside.

  The level is read backward: the level left by a run of events is the number
  of matched close tags minus the number of open tags in it. An unmatched
  close tag (the boundary of a truncated selection) is always kept and does
  not move the level. A matched close tag or a non-tag event is kept when the
  events after it leave a positive level. An open tag is kept when that level
  minus one, the level once the open tag itself is passed, is positive.
 */
module Envelope {
  import opened Model

  /** How an event moves the backward level: a matched close opens a level, an open tag closes one. */
  function Delta(e: Event): int {
    match e
    case CloseTag(_, unmatched) => if unmatched then 0 else 1
    case OpenTag(_, _) => -1
    case _ => 0
  }

  /** The backward level accumulated over a run of events. */
  function Level(s: seq<Event>): int {
    if |s| == 0 then 0 else Delta(s[0]) + Level(s[1..])
  }

  /**
    Whether event `e` survives when the events after it leave the level at `level`:
    an unmatched close always does; a matched close or any non-tag event only
    above level 0; an open tag only if the level after closing it is still above 0.
   */
  predicate Kept(e: Event, level: int) {
    match e
    case CloseTag(_, unmatched) => unmatched || level > 0
    case OpenTag(_, _) => level - 1 > 0
    case _ => level > 0
  }

  /** The strip of `s` keeps the event at `i`, judged by `Kept` against the level the events after it leave. */
  predicate KeptAt(s: seq<Event>, i: int)
    requires 0 <= i < |s|
  {
    Kept(s[i], Level(s[i + 1..]))
  }

  /**
    The reference definition of the strip: the events of `s`, in order, that
    `Kept` accepts, each judged by the level the events after it leave.
   */
  function TopLevelRemoved(s: seq<Event>): (r: seq<Event>)
    ensures |r| <= |s|
    ensures forall e :: e in r ==> e in s
  {
    if |s| == 0 then []
    else (if Kept(s[0], Level(s[1..])) then [s[0]] else []) + TopLevelRemoved(s[1..])
  }

  /** Prepending an event: it is judged by the level of everything after it, which it then moves. */
  lemma StripCons(e: Event, s: seq<Event>)
    ensures Level([e] + s) == Delta(e) + Level(s)
    ensures TopLevelRemoved([e] + s) == (if Kept(e, Level(s)) then [e] else []) + TopLevelRemoved(s)
  {
    assert ([e] + s)[0] == e;
    assert ([e] + s)[1..] == s;
  }

  /** The level over a concatenation is the sum of the levels. */
  lemma {:induction false} LevelAppend(a: seq<Event>, b: seq<Event>)
    ensures Level(a + b) == Level(a) + Level(b)
    decreases |a|
  {
    if |a| > 0 {
      assert (a + b)[0] == a[0];
      assert (a + b)[1..] == a[1..] + b;
      LevelAppend(a[1..], b);
    } else {
      assert a + b == b;
    }
  }

  /**
    The backward loop of the source, on a working copy of the events: `n`
    counts down from the end, the level is updated as each event is passed,
    and an event that `Kept` rejects is deleted from the copy in place (an
    open tag is judged after the level has been decremented for it). The input is left
    as it is; the result is exactly the reference strip.
   */
  method StripEnvelopes(events: seq<Event>) returns (model: seq<Event>)
    ensures model == TopLevelRemoved(events)
  {
    model := events;
    var modelLevel := 0;
    var n := |events|;
    while n != 0
      invariant 0 <= n <= |events|
      invariant modelLevel == Level(events[n..])
      invariant model == events[..n] + TopLevelRemoved(events[n..])
    {
      n := n - 1;
      SuffixStep(events, n);
      ghost var kept := TopLevelRemoved(events[n + 1..]);
      assert model[..n] == events[..n] && model[n] == events[n];
      var event := model[n];
      if event.CloseTag? {
        if event.unmatched {
          continue;
        }
        if modelLevel <= 0 {
          model := model[..n] + model[n + 1..];
        }
        modelLevel := modelLevel + 1;
        continue;
      }
      if event.OpenTag? {
        modelLevel := modelLevel - 1;
        if modelLevel <= 0 {
          model := model[..n] + model[n + 1..];
        }
        continue;
      }
      if modelLevel <= 0 {
        model := model[..n] + model[n + 1..];
      }
    }
    assert events[..0] == [];
  }

  /**
    One backward step of the loop: the prefix before `n` is untouched, and the
    event at `n` is kept or dropped in front of what the suffix keeps.
   */
  lemma SuffixStep(events: seq<Event>, n: nat)
    requires n < |events|
    ensures Level(events[n..]) == Delta(events[n]) + Level(events[n + 1..])
    ensures var kept := TopLevelRemoved(events[n + 1..]);
            var prefix := events[..n + 1] + kept;
            && (events[..n] + TopLevelRemoved(events[n..]) ==
                  if Kept(events[n], Level(events[n + 1..])) then prefix else events[..n] + kept)
            && prefix[..n] == events[..n] && prefix[n] == events[n]
            && prefix[..n] + prefix[n + 1..] == events[..n] + kept
  {
    assert events[n..] == [events[n]] + events[n + 1..];
    StripCons(events[n], events[n + 1..]);
    var kept := TopLevelRemoved(events[n + 1..]);
    assert events[..n + 1] == events[..n] + [events[n]];
    var prefix := events[..n + 1] + kept;
    assert prefix[n + 1..] == kept;
  }

  /** `a` can be obtained from `b` by deleting elements: each element of `b` is either matched in order or dropped. */
  predicate IsSubsequence<T(==)>(a: seq<T>, b: seq<T>)
    decreases |b|
  {
    if |b| == 0 then |a| == 0
    else (|a| > 0 && a[0] == b[0] && IsSubsequence(a[1..], b[1..])) || IsSubsequence(a, b[1..])
  }

  /** Stripping only deletes: the result is a subsequence of the input. */
  lemma {:induction false} StripIsSubsequence(s: seq<Event>)
    ensures IsSubsequence(TopLevelRemoved(s), s)
    decreases |s|
  {
    if |s| > 0 {
      StripIsSubsequence(s[1..]);
      var tail := TopLevelRemoved(s[1..]);
      if Kept(s[0], Level(s[1..])) {
        assert TopLevelRemoved(s) == [s[0]] + tail;
        assert ([s[0]] + tail)[1..] == tail;
      } else {
        assert TopLevelRemoved(s) == tail;
      }
    }
  }

  /** Every unmatched close tag of the input survives the strip, with its multiplicity. */
  lemma {:induction false} UnmatchedClosesKept(s: seq<Event>, e: Event)
    requires e.CloseTag? && e.unmatched
    ensures multiset(TopLevelRemoved(s))[e] == multiset(s)[e]
    decreases |s|
  {
    if |s| > 0 {
      UnmatchedClosesKept(s[1..], e);
      assert s == [s[0]] + s[1..];
    }
  }

  /** The events before position `i` that the strip of `s` keeps, in order, each judged within the whole of `s`. */
  function KeptBefore(s: seq<Event>, i: int): seq<Event>
    requires 0 <= i <= |s|
    decreases i
  {
    if i == 0 then [] else KeptBefore(s, i - 1) + (if KeptAt(s, i - 1) then [s[i - 1]] else [])
  }

  /** The strip of the suffix from `i` starts with the event at `i` exactly when `KeptAt` accepts that event. */
  lemma StripAt(s: seq<Event>, i: int)
    requires 0 <= i < |s|
    ensures TopLevelRemoved(s[i..]) == (if KeptAt(s, i) then [s[i]] else []) + TopLevelRemoved(s[i + 1..])
  {
    assert s[i..] == [s[i]] + s[i + 1..];
    StripCons(s[i], s[i + 1..]);
  }

  /** The strip splits at any position into what it keeps before it and the strip of what follows. */
  lemma {:induction false} StripSplitsAt(s: seq<Event>, i: int)
    requires 0 <= i <= |s|
    ensures TopLevelRemoved(s) == KeptBefore(s, i) + TopLevelRemoved(s[i..])
    decreases i
  {
    if i == 0 {
      assert s[0..] == s;
    } else {
      StripSplitsAt(s, i - 1);
      StripAt(s, i - 1);
      var before, here := KeptBefore(s, i - 1), if KeptAt(s, i - 1) then [s[i - 1]] else [];
      var after := TopLevelRemoved(s[i..]);
      assert before + (here + after) == (before + here) + after;
    }
  }

  /**
    Position by position, the strip keeps the event at `i` exactly when `Kept`
    accepts it against the level the events after it leave: the result is what
    is kept before `i`, then `s[i]` if and only if `KeptAt(s, i)`, then what is
    kept after `i`.
   */
  lemma {:induction false} StripAtEachPosition(s: seq<Event>, i: int)
    requires 0 <= i < |s|
    ensures TopLevelRemoved(s) ==
            KeptBefore(s, i) + (if KeptAt(s, i) then [s[i]] else []) + TopLevelRemoved(s[i + 1..])
  {
    StripSplitsAt(s, i);
    StripAt(s, i);
  }

  /**
    A well-formed run of events entered at element depth `depth`: every
    matched close tag closes an element opened before it, and every element is
    closed by the end. An unmatched close tag, the boundary of a truncated
    selection, may appear anywhere and does not move the depth.
   */
  predicate WellFormedFrom(s: seq<Event>, depth: int)
    decreases |s|
  {
    if |s| == 0 then depth == 0
    else match s[0]
      case OpenTag(_, _) => WellFormedFrom(s[1..], depth + 1)
      case CloseTag(_, unmatched) =>
        if unmatched then WellFormedFrom(s[1..], depth)
        else depth >= 1 && WellFormedFrom(s[1..], depth - 1)
      case _ => WellFormedFrom(s[1..], depth)
  }

  /** A complete well-formed model: a whole document, or a selection whose only unpaired tags are unmatched close tags. */
  predicate WellFormed(s: seq<Event>) {
    WellFormedFrom(s, 0)
  }

  /**
    The strip read forward, with `depth` the number of elements open before
    the first event: an unmatched close tag is always kept; any other event is
    kept exactly when some element encloses it (for a matched close tag, an
    element other than the one it closes).
   */
  function StripByDepth(s: seq<Event>, depth: int): seq<Event>
    decreases |s|
  {
    if |s| == 0 then []
    else
      var e := s[0];
      match e
      case OpenTag(_, _) => (if depth >= 1 then [e] else []) + StripByDepth(s[1..], depth + 1)
      case CloseTag(_, unmatched) =>
        if unmatched then [e] + StripByDepth(s[1..], depth)
        else (if depth - 1 >= 1 then [e] else []) + StripByDepth(s[1..], depth - 1)
      case _ => (if depth >= 1 then [e] else []) + StripByDepth(s[1..], depth)
  }

  /** Entering a well-formed run at some depth, the events after it close exactly that many elements. */
  lemma {:induction false} WellFormedLevel(s: seq<Event>, depth: int)
    requires WellFormedFrom(s, depth)
    ensures Level(s) == depth
    decreases |s|
  {
    if |s| > 0 {
      WellFormedLevel(s[1..], depth - Delta(s[0]));
    }
  }

  /**
    Read backward or forward, the strip agrees: when the events after the
    entry point close `depth` elements, the backward level of each event is
    the forward depth of the elements enclosing it.
   */
  lemma {:induction false} BackwardLevelIsForwardDepth(s: seq<Event>, depth: int)
    requires Level(s) == depth
    ensures TopLevelRemoved(s) == StripByDepth(s, depth)
    decreases |s|
  {
    if |s| > 0 {
      BackwardLevelIsForwardDepth(s[1..], depth - Delta(s[0]));
    }
  }

  /** Stripping a well-formed model entered at `depth` leaves a well-formed run one level shallower. */
  lemma {:induction false} StripByDepthWellFormed(s: seq<Event>, depth: int)
    requires depth >= 0 && WellFormedFrom(s, depth)
    ensures WellFormedFrom(StripByDepth(s, depth), if depth > 0 then depth - 1 else 0)
    decreases |s|
  {
    if |s| > 0 {
      var e := s[0];
      var next := depth - Delta(e);
      StripByDepthWellFormed(s[1..], next);
      var tail := StripByDepth(s[1..], next);
      if StripByDepth(s, depth) != tail {
        assert StripByDepth(s, depth) == [e] + tail;
        assert ([e] + tail)[1..] == tail;
      }
    }
  }

  /** The events of one element: its open tag, its contents, and the close tag that matches it. */
  function Element(name: string, attributes: map<AttrKey, string>, inner: seq<Event>): (r: seq<Event>)
    ensures |r| == |inner| + 2 && r[0] == OpenTag(name, attributes) && r[|r| - 1] == CloseTag(name, false)
    ensures r[1..] == inner + [CloseTag(name, false)]
  {
    [OpenTag(name, attributes)] + inner + [CloseTag(name, false)]
  }

  /**
    Running a well-formed `x` entered at depth `d` from depth `d + e` instead
    leaves it at depth `e`, where a run well-formed from `e` can follow.
   */
  lemma {:induction false} WellFormedConcat(x: seq<Event>, y: seq<Event>, d: int, e: int)
    requires e >= 0 && WellFormedFrom(x, d) && WellFormedFrom(y, e)
    ensures WellFormedFrom(x + y, d + e)
    decreases |x|
  {
    if |x| == 0 {
      assert x + y == y;
    } else {
      assert (x + y)[0] == x[0];
      assert (x + y)[1..] == x[1..] + y;
      WellFormedConcat(x[1..], y, d - Delta(x[0]), e);
    }
  }

  /** An element with well-formed contents is itself well-formed. */
  lemma ElementWellFormed(name: string, attributes: map<AttrKey, string>, inner: seq<Event>)
    requires WellFormed(inner)
    ensures WellFormed(Element(name, attributes, inner))
  {
    var close := CloseTag(name, false);
    assert WellFormedFrom([close][1..], 0);
    WellFormedConcat(inner, [close], 0, 1);
  }

  /** Events whose trailing run is balanced are judged as if that run were absent: the strip distributes. */
  lemma {:induction false} StripAppend(x: seq<Event>, y: seq<Event>)
    requires Level(y) == 0
    ensures TopLevelRemoved(x + y) == TopLevelRemoved(x) + TopLevelRemoved(y)
    decreases |x|
  {
    if |x| == 0 {
      assert x + y == y;
    } else {
      StripAppend(x[1..], y);
      StripAppendStep(x[0], x[1..], y);
      SplitFirst(x, y);
      assert x == [x[0]] + x[1..];
    }
  }

  /** The inductive step of `StripAppend`: the first event is judged the same with or without `y` after it. */
  lemma StripAppendStep(e: Event, tail: seq<Event>, y: seq<Event>)
    requires Level(y) == 0
    requires TopLevelRemoved(tail + y) == TopLevelRemoved(tail) + TopLevelRemoved(y)
    ensures TopLevelRemoved([e] + (tail + y)) == TopLevelRemoved([e] + tail) + TopLevelRemoved(y)
  {
    LevelAppend(tail, y);
    StripCons(e, tail + y);
    StripCons(e, tail);
    var head := if Kept(e, Level(tail)) then [e] else [];
    var a, b := TopLevelRemoved(tail), TopLevelRemoved(y);
    assert head + (a + b) == (head + a) + b;
  }

  /** One forward step of the strip over an event some element encloses. */
  lemma EnclosedEventKept(e: Event, u: seq<Event>, depth: int)
    requires depth >= 1 && (e.CloseTag? && !e.unmatched ==> depth >= 2)
    ensures StripByDepth([e] + u, depth) == [e] + StripByDepth(u, depth - Delta(e))
  {
    assert ([e] + u)[0] == e;
    assert ([e] + u)[1..] == u;
  }

  /**
    Entered above level 0, a well-formed run is kept whole: every event in it
    is enclosed by at least one element open before it.
   */
  lemma {:induction false} NestedRunKept(inner: seq<Event>, rest: seq<Event>, j: int, k: int)
    requires j >= 0 && k >= 1 && WellFormedFrom(inner, j)
    ensures StripByDepth(inner + rest, j + k) == inner + StripByDepth(rest, k)
    decreases |inner|
  {
    if |inner| == 0 {
      assert inner + rest == rest;
    } else {
      var e, tail := inner[0], inner[1..];
      var next := j - Delta(e);
      assert WellFormedFrom(tail, next) && (e.CloseTag? && !e.unmatched ==> j >= 1);
      NestedRunKept(tail, rest, next, k);
      NestedRunStep(e, tail, rest, j, k);
      SplitFirst(inner, rest);
      SplitFirst(inner, StripByDepth(rest, k));
    }
  }

  /** A non-empty sequence followed by `x` is its first element followed by the rest and then `x`. */
  lemma SplitFirst<T>(s: seq<T>, x: seq<T>)
    requires |s| > 0
    ensures s + x == [s[0]] + (s[1..] + x)
  {
    assert s == [s[0]] + s[1..];
  }

  /** The inductive step of `NestedRunKept`: an enclosed event is kept in front of the rest of its run. */
  lemma NestedRunStep(e: Event, tail: seq<Event>, rest: seq<Event>, j: int, k: int)
    requires j >= 0 && k >= 1 && (e.CloseTag? && !e.unmatched ==> j >= 1)
    requires StripByDepth(tail + rest, j - Delta(e) + k) == tail + StripByDepth(rest, k)
    ensures StripByDepth([e] + (tail + rest), j + k) == [e] + (tail + StripByDepth(rest, k))
  {
    EnclosedEventKept(e, tail + rest, j + k);
  }

  /** Stripping one element with well-formed contents leaves exactly its contents. */
  lemma EnvelopeInteriorKept(name: string, attributes: map<AttrKey, string>, inner: seq<Event>)
    requires WellFormed(inner)
    ensures TopLevelRemoved(Element(name, attributes, inner)) == inner
  {
    var s := Element(name, attributes, inner);
    var close := CloseTag(name, false);
    ElementWellFormed(name, attributes, inner);
    WellFormedLevel(s, 0);
    BackwardLevelIsForwardDepth(s, 0);
    NestedRunKept(inner, [close], 0, 1);
    assert StripByDepth([close], 1) == [];
    assert inner + [] == inner;
  }

  /**
    Sibling elements with level-0 events between them: each loses its own
    envelope, and the events between them go too.
   */
  lemma SiblingEnvelopesStripped(first: seq<Event>, between: Event, second: seq<Event>)
    requires WellFormed(first) && WellFormed(second)
    requires !between.OpenTag? && !between.CloseTag?
    ensures TopLevelRemoved(first + [between] + second) == TopLevelRemoved(first) + TopLevelRemoved(second)
  {
    WellFormedLevel(second, 0);
    StripAppend(first + [between], second);
    StripCons(between, []);
    StripAppend(first, [between]);
  }

  /**
    The envelope stripper never breaks the pairing of open and close tags of a
    well-formed model, including a truncated selection with unmatched close tags.
   */
  lemma StripPreservesWellFormedness(s: seq<Event>)
    requires WellFormed(s)
    ensures WellFormed(TopLevelRemoved(s))
  {
    WellFormedLevel(s, 0);
    BackwardLevelIsForwardDepth(s, 0);
    StripByDepthWellFormed(s, 0);
  }
}
