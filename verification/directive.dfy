/**
  How an attribute value becomes a fragment: a blank value gives no fragment;
  otherwise the value is trimmed, wrapped as `~{...}` unless the classifier
  says it is a complete expression, and handed to the expression evaluator.
 */
module Directive {
  import opened Model
  import opened Classifier

  /**
    Java's `Character.isWhitespace` on a UTF-16 code unit: the space
    separators other than the no-break spaces, plus tab, line feed, vertical
    tab, form feed, carriage return and the four information separators.
    These are the Java 9 and later tables; Java 6 to 8 also counted U+180E.
   */
  predicate IsWhitespace(c: char) {
    var x := c as int;
    (0x09 <= x <= 0x0D) || (0x1C <= x <= 0x20) || x == 0x1680 ||
    (0x2000 <= x <= 0x2006) || (0x2008 <= x <= 0x200A) ||
    x == 0x2028 || x == 0x2029 || x == 0x205F || x == 0x3000
  }

  /**
    `StringUtils.isEmptyOrWhitespace`, whose body this model does not have:
    assumed to hold for the empty string and for strings in which every
    character satisfies `Character.isWhitespace`.
   */
  predicate IsBlank(s: string) {
    forall i :: 0 <= i < |s| ==> IsWhitespace(s[i])
  }

  /** `String.trim` drops characters up to and including the space character U+0020. */
  predicate Trimmable(c: char) {
    c <= ' '
  }

  /** Index of the first character `String.trim` keeps, scanning forward from `i`. */
  function TrimStart(s: string, i: nat): (a: nat)
    requires i <= |s|
    requires forall k :: 0 <= k < i ==> Trimmable(s[k])
    ensures i <= a <= |s|
    ensures forall k :: 0 <= k < a ==> Trimmable(s[k])
    ensures a == |s| || !Trimmable(s[a])
    decreases |s| - i
  {
    if i < |s| && Trimmable(s[i]) then TrimStart(s, i + 1) else i
  }

  /** End (exclusive) of what `String.trim` keeps, scanning backward from `b` down to `a`. */
  function TrimEnd(s: string, a: nat, b: nat): (e: nat)
    requires a <= b <= |s|
    requires forall k :: b <= k < |s| ==> Trimmable(s[k])
    ensures a <= e <= b
    ensures forall k :: e <= k < |s| ==> Trimmable(s[k])
    ensures e == a || !Trimmable(s[e - 1])
    decreases b
  {
    if a < b && Trimmable(s[b - 1]) then TrimEnd(s, a, b - 1) else b
  }

  /**
    `String.trim`: the contiguous middle of `s` left after dropping every
    leading and trailing character up to U+0020.
   */
  function Trim(s: string): (r: string)
    ensures |r| <= |s|
    ensures r == [] || (!Trimmable(r[0]) && !Trimmable(r[|r| - 1]))
    ensures r == [] ==> forall k :: 0 <= k < |s| ==> Trimmable(s[k])
  {
    var a := TrimStart(s, 0);
    var e := TrimEnd(s, a, |s|);
    s[a..e]
  }

  /** The input is the trimmed value with only trimmable characters before (`s[..a]`) and after it. */
  lemma TrimDecomposes(s: string) returns (a: nat)
    ensures a + |Trim(s)| <= |s|
    ensures s == s[..a] + Trim(s) + s[a + |Trim(s)|..]
    ensures forall k :: 0 <= k < a ==> Trimmable(s[k])
    ensures forall k :: a + |Trim(s)| <= k < |s| ==> Trimmable(s[k])
  {
    a := TrimStart(s, 0);
    var e := TrimEnd(s, a, |s|);
    assert Trim(s) == s[a..e];
    assert s == s[..a] + s[a..e] + s[e..];
  }

  /** Trimming twice is trimming once. */
  lemma TrimIdempotent(s: string)
    ensures Trim(Trim(s)) == Trim(s)
  {
    var t := Trim(s);
    var a := TrimStart(t, 0);
    assert a == 0;
    var e := TrimEnd(t, 0, |t|);
    assert e == |t|;
  }

  /** A value that neither starts nor ends with a character up to U+0020 is its own trimming. */
  lemma TrimKeepsTrimmed(s: string)
    requires |s| > 0 && !Trimmable(s[0]) && !Trimmable(s[|s| - 1])
    ensures Trim(s) == s
  {
    assert TrimStart(s, 0) == 0;
    assert TrimEnd(s, 0, |s|) == |s|;
  }

  /** `"~{" + t + "}"`: `t` as the content of a fragment expression. */
  function Wrap(t: string): (w: string)
    ensures |w| == |t| + 3
    ensures w[..2] == [Selector, '{'] && w[2..|w| - 1] == t && w[|w| - 1] == '}'
  {
    [Selector, '{'] + t + ['}']
  }

  /**
    The text handed to the expression parser for a trimmed value `t`: `t`
    itself when it classifies as complete, its wrapping otherwise. Either way
    the classifier sees the result as a complete expression.
   */
  function ExpressionText(t: string): (r: string)
    ensures Classify(r)
    ensures Classify(t) ==> r == t
    ensures !Classify(t) ==> r == Wrap(t)
  {
    if Classify(t) then t else Wrap(t)
  }

  /** A trimmed value's expression text needs neither trimming nor wrapping again. */
  lemma ExpressionTextIsStable(s: string)
    ensures ExpressionText(ExpressionText(Trim(s))) == ExpressionText(Trim(s))
    ensures Trim(ExpressionText(Trim(s))) == ExpressionText(Trim(s))
  {
    var t := Trim(s);
    var x := ExpressionText(t);
    if x == t {
      TrimIdempotent(s);
    } else {
      TrimKeepsTrimmed(x);
    }
  }

  /**
    `computeFragment`: no fragment for a blank value (the evaluator is not
    consulted); otherwise whatever the evaluator makes of the expression text
    of the trimmed value.
   */
  function ComputeFragment(input: string, evaluate: string -> Option<Fragment>): (r: Option<Fragment>)
    ensures IsBlank(input) ==> r == None
    ensures !IsBlank(input) && Classify(Trim(input)) ==> r == evaluate(Trim(input))
    ensures !IsBlank(input) && !Classify(Trim(input)) ==> r == evaluate([Selector, '{'] + Trim(input) + ['}'])
  {
    if IsBlank(input) then None
    else evaluate(ExpressionText(Trim(input)))
  }

  /** A value made only of characters up to U+0020 trims to nothing. */
  lemma TrimmableOnlyTrimsToEmpty(s: string)
    requires forall k :: 0 <= k < |s| ==> Trimmable(s[k])
    ensures Trim(s) == []
  {
    assert TrimStart(s, 0) == |s|;
  }

  /**
    `isEmptyOrWhitespace` and `trim` disagree on what is blank: a value made
    only of characters up to U+0020, at least one of which is not Java
    whitespace (U+0000 to U+0008, U+000E to U+001B), is evaluated, yet it
    trims to nothing and the parser is handed the empty fragment expression `~{}`.
   */
  lemma UnblankControlValueReachesParser(s: string, evaluate: string -> Option<Fragment>)
    requires !IsBlank(s)
    requires forall k :: 0 <= k < |s| ==> Trimmable(s[k])
    ensures ComputeFragment(s, evaluate) == evaluate("~{}")
  {
    TrimmableOnlyTrimsToEmpty(s);
    assert !Classify([]);
    assert ExpressionText([]) == "~{}";
  }

  /** Such values exist: the lone control character U+0001 is one. */
  lemma ControlCharacterReachesParser(evaluate: string -> Option<Fragment>)
    ensures !IsBlank([1 as char])
    ensures ComputeFragment([1 as char], evaluate) == evaluate("~{}")
  {
    assert !IsWhitespace(1 as char);
    assert Trimmable([1 as char][0]);
    UnblankControlValueReachesParser([1 as char], evaluate);
  }
}
