/**
  The heuristic that decides whether a trimmed `th:insert`/`th:replace`
  attribute value is a complete standard expression, or the bare content of a
  fragment expression that must be wrapped as `~{...}` before parsing.

  The scan keeps three pieces of state: a brace level, a parenthesis level that
  only moves at brace level 0, and a single-quote literal flag. Each character
  either gives a decisive signal (the answer) or updates the state.
 */
module Classifier {
  import opened Model

  /** The fragment-expression selector character, the `~` of `~{...}`. */
  const Selector: char := '~'

  datatype ScanState = ScanState(bracketLevel: int, paramLevel: int, inLiteral: bool)

  const Start := ScanState(0, 0, false)

  /** Lower-case letters and spaces never matter to the scan; the source skips them first. */
  predicate FailFast(c: char) {
    ('a' <= c <= 'z') || c == ' '
  }

  /**
    The decision character `s[i]` gives when the scan reaches it in state `st`:
    `Some(true)` for a fragment expression `~{`, `Some(false)` for a named
    parameter `=` or a legacy `::` separator, `None` when the scan goes on.
    Only characters outside a literal and at brace level 0 can decide, and the
    one-character lookahead is taken only when a next character exists.
   */
  function Signal(s: string, i: nat, st: ScanState): (r: Option<bool>)
    requires i < |s|
    ensures r == Some(true) <==>
              !st.inLiteral && st.bracketLevel == 0 && s[i] == Selector && i + 1 < |s| && s[i + 1] == '{'
    ensures r == Some(false) <==>
              !st.inLiteral && st.bracketLevel == 0 &&
              ((s[i] == '=' && st.paramLevel == 1) || (s[i] == ':' && i + 1 < |s| && s[i + 1] == ':'))
  {
    var c := s[i];
    if FailFast(c) || c == '\'' || st.inLiteral || c == '{' || c == '}' || st.bracketLevel != 0 then None
    else if c == '(' || c == ')' then None
    else if c == '=' && st.paramLevel == 1 then Some(false)
    else if c == Selector && i + 1 < |s| && s[i + 1] == '{' then Some(true)
    else if c == ':' && i + 1 < |s| && s[i + 1] == ':' then Some(false)
    else None
  }

  /** The state after a character that gave no decisive signal. */
  function Step(st: ScanState, c: char): (r: ScanState)
    // a quote toggles the literal flag at any depth and touches nothing else
    ensures c == '\'' ==> r == st.(inLiteral := !st.inLiteral)
    // inside a literal only a quote changes anything
    ensures st.inLiteral && c != '\'' ==> r == st
    // only a quote changes the literal flag
    ensures c != '\'' ==> r.inLiteral == st.inLiteral
    // the brace level moves by one, and only on a brace outside a literal
    ensures r.bracketLevel != st.bracketLevel ==>
              !st.inLiteral && ((c == '{' && r.bracketLevel == st.bracketLevel + 1) ||
                                (c == '}' && r.bracketLevel == st.bracketLevel - 1))
    // the parenthesis level moves by one, and only on a parenthesis at brace level 0
    ensures r.paramLevel != st.paramLevel ==>
              !st.inLiteral && st.bracketLevel == 0 &&
              ((c == '(' && r.paramLevel == st.paramLevel + 1) ||
               (c == ')' && r.paramLevel == st.paramLevel - 1))
    ensures !st.inLiteral && c == '{' ==> r.bracketLevel == st.bracketLevel + 1
    ensures !st.inLiteral && c == '}' ==> r.bracketLevel == st.bracketLevel - 1
    ensures !st.inLiteral && st.bracketLevel == 0 && c == '(' ==> r.paramLevel == st.paramLevel + 1
    ensures !st.inLiteral && st.bracketLevel == 0 && c == ')' ==> r.paramLevel == st.paramLevel - 1
  {
    if FailFast(c) then st
    else if c == '\'' then st.(inLiteral := !st.inLiteral)
    else if st.inLiteral then st
    else if c == '{' then st.(bracketLevel := st.bracketLevel + 1)
    else if c == '}' then st.(bracketLevel := st.bracketLevel - 1)
    else if st.bracketLevel == 0 && c == '(' then st.(paramLevel := st.paramLevel + 1)
    else if st.bracketLevel == 0 && c == ')' then st.(paramLevel := st.paramLevel - 1)
    else st
  }

  /** The scan state after the prefix `s[..i]`, ignoring decisions. */
  function StateAt(s: string, i: nat): ScanState
    requires i <= |s|
    decreases i
  {
    if i == 0 then Start else Step(StateAt(s, i - 1), s[i - 1])
  }

  /** The signal the character at `i` gives in the state the prefix before it leaves. */
  function SignalAt(s: string, i: nat): Option<bool>
    requires i < |s|
  {
    Signal(s, i, StateAt(s, i))
  }

  /** `s[i]` is the first character of `s` that gives a decisive signal. */
  predicate FirstSignalAt(s: string, i: int) {
    0 <= i < |s| && SignalAt(s, i).Some? && forall j :: 0 <= j < i ==> SignalAt(s, j).None?
  }

  /** The left-to-right scan from index `i` in state `st`; no signal at all means "not complete". */
  function Scan(s: string, i: nat, st: ScanState): bool
    requires i <= |s|
    decreases |s| - i
  {
    if i == |s| then false
    else match Signal(s, i, st)
      case Some(d) => d
      case None => Scan(s, i + 1, Step(st, s[i]))
  }

  /** The input already opens with a fragment expression `~{` (and has more after it). */
  predicate OpensFragmentExpression(s: string) {
    |s| > 2 && s[0] == Selector && s[1] == '{'
  }

  /** True when `s` is to be parsed as a complete standard expression, false when it must be wrapped. */
  function Classify(s: string): bool {
    if OpensFragmentExpression(s) then true else Scan(s, 0, Start)
  }

  /**
    The scan as the source writes it: a countdown `n` beside the index `i`,
    the fail-fast skip, and the nested decision chain.
   */
  method ShouldParseAsCompleteStandardExpression(input: string) returns (r: bool)
    ensures r == Classify(input)
  {
    var inputLen := |input|;
    if inputLen > 2 && input[0] == Selector && input[1] == '{' {
      FastPathAgrees(input);
      return true;
    }
    var bracketLevel := 0;
    var paramLevel := 0;
    var inLiteral := false;
    var n := inputLen;
    var i := 0;
    while n != 0
      invariant 0 <= i <= inputLen && n == inputLen - i
      invariant ScanState(bracketLevel, paramLevel, inLiteral) == StateAt(input, i)
      invariant forall j :: 0 <= j < i ==> SignalAt(input, j).None?
    {
      n := n - 1;
      var c := input[i];
      ghost var st := ScanState(bracketLevel, paramLevel, inLiteral);
      assert StateAt(input, i + 1) == Step(st, c);
      assert SignalAt(input, i) == Signal(input, i, st);
      if ('a' <= c <= 'z') || c == ' ' {
        i := i + 1;
        continue;
      }
      if c == '\'' {
        inLiteral := !inLiteral;
      } else if !inLiteral {
        if c == '{' {
          bracketLevel := bracketLevel + 1;
        } else if c == '}' {
          bracketLevel := bracketLevel - 1;
        } else if bracketLevel == 0 {
          if c == '(' {
            paramLevel := paramLevel + 1;
          } else if c == ')' {
            paramLevel := paramLevel - 1;
          } else if c == '=' && paramLevel == 1 {
            DecidedByFirstSignal(input, i);
            return false;
          } else if c == Selector && n != 0 && input[i + 1] == '{' {
            DecidedByFirstSignal(input, i);
            return true;
          } else if c == ':' && n != 0 && input[i + 1] == ':' {
            DecidedByFirstSignal(input, i);
            return false;
          }
        }
      }
      i := i + 1;
    }
    NoSignalIsIncomplete(input);
    return false;
  }

  /** Scanning from the start reaches index `k` in the state of the prefix, as long as no earlier character decided. */
  lemma {:induction false} ScanReaches(s: string, k: nat)
    requires k <= |s|
    requires forall j :: 0 <= j < k ==> SignalAt(s, j).None?
    ensures Scan(s, 0, Start) == Scan(s, k, StateAt(s, k))
    decreases k
  {
    if k > 0 {
      ScanReaches(s, k - 1);
      assert SignalAt(s, k - 1).None?;
    }
  }

  /** The first decisive character fixes the answer. */
  lemma DecidedByFirstSignal(s: string, i: nat)
    requires FirstSignalAt(s, i)
    ensures Classify(s) == SignalAt(s, i).value
  {
    FastPathAgrees(s);
    ScanReaches(s, i);
  }

  /**
    The classification in declarative terms: complete exactly when the value
    opens with `~{` or its first decisive character signals a fragment expression.
   */
  lemma ClassifyIsFirstSignal(s: string)
    ensures Classify(s) <==> OpensFragmentExpression(s) || exists i :: FirstSignalAt(s, i) && SignalAt(s, i) == Some(true)
  {
    FastPathAgrees(s);
    if i :| FirstSignalAt(s, i) {
      DecidedByFirstSignal(s, i);
      forall k | FirstSignalAt(s, k)
        ensures k == i
      {
      }
    } else {
      forall j | 0 <= j < |s|
        ensures SignalAt(s, j).None?
      {
        if SignalAt(s, j).Some? {
          SomeSignalHasFirst(s, j);
        }
      }
      NoSignalIsIncomplete(s);
    }
  }

  /** If any character decides, some character is the first to decide. */
  lemma {:induction false} SomeSignalHasFirst(s: string, j: nat)
    requires j < |s| && SignalAt(s, j).Some?
    ensures exists i :: FirstSignalAt(s, i)
    decreases j
  {
    if forall k :: 0 <= k < j ==> SignalAt(s, k).None? {
      assert FirstSignalAt(s, j);
    } else {
      var k :| 0 <= k < j && SignalAt(s, k).Some?;
      SomeSignalHasFirst(s, k);
    }
  }

  /** A string in which no character gives a decisive signal is not a complete expression. */
  lemma NoSignalIsIncomplete(s: string)
    requires forall j :: 0 <= j < |s| ==> SignalAt(s, j).None?
    ensures !Classify(s)
    ensures !OpensFragmentExpression(s)
    ensures forall k :: !FirstSignalAt(s, k)
  {
    FastPathAgrees(s);
    ScanReaches(s, |s|);
  }

  /**
    The `~{` prefix check is only a fast path: on such an input the scan's very
    first character already signals a fragment expression.
   */
  lemma FastPathAgrees(s: string)
    ensures Classify(s) == Scan(s, 0, Start)
    ensures OpensFragmentExpression(s) ==> FirstSignalAt(s, 0) && SignalAt(s, 0) == Some(true)
  {
    if OpensFragmentExpression(s) {
      assert SignalAt(s, 0) == Some(true);
    }
  }

  /** Every input opening with `~{` (and longer than two characters) is a complete expression. */
  lemma SelectorOpenerIsComplete(s: string)
    requires OpensFragmentExpression(s)
    ensures Classify(s)
  {
  }

  /**
    A named-parameter `=` at parenthesis level 1 and brace level 0, outside a
    literal, reached before any other decisive character, means "wrap it".
   */
  lemma NamedParameterIsIncomplete(s: string, i: nat)
    requires i < |s| && s[i] == '='
    requires StateAt(s, i) == ScanState(0, 1, false)
    requires forall j :: 0 <= j < i ==> SignalAt(s, j).None?
    ensures !Classify(s)
  {
    DecidedByFirstSignal(s, i);
  }

  /** An `=` anywhere but at parenthesis level 1, brace level 0 and outside a literal decides nothing. */
  lemma OtherEqualsIsNotDecisive(s: string, i: nat)
    requires i < |s| && s[i] == '='
    requires StateAt(s, i).paramLevel != 1 || StateAt(s, i).bracketLevel != 0 || StateAt(s, i).inLiteral
    ensures SignalAt(s, i).None?
  {
  }

  /** Inside a literal, or at a non-zero brace level, no character ever decides. */
  lemma NestedCharactersAreNotDecisive(s: string, i: nat)
    requires i < |s|
    requires StateAt(s, i).inLiteral || StateAt(s, i).bracketLevel != 0
    ensures SignalAt(s, i).None?
  {
  }
}
