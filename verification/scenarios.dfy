/**
  Concrete cases of the classifier, the envelope stripper and the insertion
  dispatch, each stated against the model. Element names and text contents
  are left as parameters where the case does not depend on them.
 */
module Scenarios {
  import opened Model
  import opened Classifier
  import opened Directive
  import opened Envelope
  import opened Insertion

  /** A fragment expression is complete. */
  lemma FragmentExpressionIsComplete()
    ensures Classify("~{footer :: copy}")
  {
  }

  /** An expression that contains a fragment expression is complete. */
  lemma ContainedFragmentExpressionIsComplete()
    ensures Classify("x ? ~{a}")
  {
  }

  /** Legacy shorthand with a template/selector separator is wrapped. */
  lemma LegacySeparatorIsWrapped()
    ensures !Classify("footer :: copy")
  {
  }

  /** Legacy shorthand naming a template and a selector is wrapped. */
  lemma LegacySelectorIsWrapped()
    ensures !Classify("frag::sel")
  {
  }

  /** Legacy shorthand with a named parameter is wrapped. */
  lemma LegacyNamedParameterIsWrapped()
    ensures !Classify("frag(a=1)")
  {
  }

  /** A `=` at parenthesis level 1 decides before a later `~{` can. */
  lemma NamedParameterDecidesFirst()
    ensures !Classify("f(a=1) ~{x}")
  {
  }

  /** A separator inside a literal decides nothing, so the value is wrapped. */
  lemma QuotedSeparatorIsIgnored()
    ensures !Classify("'a::b'")
  {
  }

  /** A separator inside braces decides nothing, so the value is wrapped. */
  lemma BracedSeparatorIsIgnored()
    ensures !Classify("${a::b}")
  {
  }

  /** `~{` alone is caught by the scan even though the prefix check needs three characters. */
  lemma BareOpenerIsComplete()
    ensures Classify("~{")
  {
  }

  /** `<d>A<s>B</s>C</d>` loses exactly its outer envelope. */
  lemma StripSingleEnvelope(d: string, s: string, a: string, b: string, c: string, attrs: map<AttrKey, string>)
    ensures TopLevelRemoved(Element(d, attrs, [Text(a)] + Element(s, attrs, [Text(b)]) + [Text(c)]))
            == [Text(a), OpenTag(s, attrs), Text(b), CloseTag(s, false), Text(c)]
  {
    var inner := [Text(a)] + Element(s, attrs, [Text(b)]) + [Text(c)];
    ElementWellFormed(s, attrs, [Text(b)]);
    WellFormedConcat([Text(a)], Element(s, attrs, [Text(b)]), 0, 0);
    WellFormedConcat([Text(a)] + Element(s, attrs, [Text(b)]), [Text(c)], 0, 0);
    EnvelopeInteriorKept(d, attrs, inner);
  }

  /** The strip is not idempotent: stripping `A<s>B</s>C` again leaves only `B`. */
  lemma StripIsNotIdempotent(s: string, a: string, b: string, c: string, attrs: map<AttrKey, string>)
    ensures TopLevelRemoved([Text(a)] + Element(s, attrs, [Text(b)]) + [Text(c)]) == [Text(b)]
  {
    var e := Element(s, attrs, [Text(b)]);
    ElementWellFormed(s, attrs, [Text(b)]);
    WellFormedConcat([Text(a)], e, 0, 0);
    SiblingEnvelopesStripped([Text(a)] + e, Text(c), []);
    assert [Text(a)] + e + [Text(c)] + [] == [Text(a)] + e + [Text(c)];
    WellFormedLevel(e, 0);
    StripAppend([Text(a)], e);
    StripCons(Text(a), []);
    EnvelopeInteriorKept(s, attrs, [Text(b)]);
    StripCons(Text(c), []);
  }

  /** `<d>A</d>-<s>B</s>` strips to `AB`: every level-0 envelope goes, and so does the text between them. */
  lemma StripEveryEnvelope(d: string, s: string, a: string, b: string, dash: string, attrs: map<AttrKey, string>)
    ensures TopLevelRemoved(Element(d, attrs, [Text(a)]) + [Text(dash)] + Element(s, attrs, [Text(b)]))
            == [Text(a), Text(b)]
  {
    ElementWellFormed(d, attrs, [Text(a)]);
    ElementWellFormed(s, attrs, [Text(b)]);
    SiblingEnvelopesStripped(Element(d, attrs, [Text(a)]), Text(dash), Element(s, attrs, [Text(b)]));
    EnvelopeInteriorKept(d, attrs, [Text(a)]);
    EnvelopeInteriorKept(s, attrs, [Text(b)]);
  }

  /** An unmatched `</d>` closing a truncated selection is kept and does not shift the level. */
  lemma StripKeepsUnmatchedClose(d: string, s: string, inner: seq<Event>, attrs: map<AttrKey, string>)
    requires WellFormed(inner)
    ensures TopLevelRemoved(Element(s, attrs, inner) + [CloseTag(d, true)]) == inner + [CloseTag(d, true)]
  {
    StripCons(CloseTag(d, true), []);
    StripAppend(Element(s, attrs, inner), [CloseTag(d, true)]);
    EnvelopeInteriorKept(s, attrs, inner);
  }

  /** A blank attribute value fails before any evaluation, whatever the evaluator would say. */
  lemma BlankValueIsUnparsable(proc: Processor, host: Host, col: Collaborators)
    ensures DoProcess(proc, host, "  \t", col) == Error(UnparsableFragment)
  {
    assert IsBlank("  \t");
  }

  /** The legacy value `frag::sel` reaches the evaluator wrapped as `~{frag::sel}`. */
  lemma LegacyValueIsWrapped(v: string, evaluate: string -> Option<Fragment>)
    requires v == "frag::sel"
    ensures ComputeFragment(v, evaluate) == evaluate("~{frag::sel}")
  {
    assert !IsBlank(v) by { assert v[0] == 'f'; }
    TrimKeepsTrimmed(v);
    LegacySelectorIsWrapped();
    assert Wrap(v) == "~{frag::sel}";
  }

  /** A fragment expression reaches the evaluator as it is. */
  lemma FragmentExpressionIsEvaluatedAsIs(v: string, evaluate: string -> Option<Fragment>)
    requires v == "~{frag::sel(x=1)}" || v == "~{frag::sel}"
    ensures ComputeFragment(v, evaluate) == evaluate(v)
  {
    assert !IsBlank(v) by { assert v[0] == '~'; }
    TrimKeepsTrimmed(v);
    assert OpensFragmentExpression(v);
  }

  /**
    `th:insert="~{frag::sel(x=1)}"` of `<d>A</d>` in the fragment's own
    template mode: the template data is applied, `x` is set as a local
    variable, and the unmodified events become the body, to be processed.
   */
  lemma SameModeInsertSetsLocalVariable(col: Collaborators, data: TemplateData, d: string, a: string)
    requires data.mode == HTML
    requires col.evaluate("~{frag::sel(x=1)}") ==
             Some(Fragment(TemplateModel([OpenTag(d, map[]), Text(a), CloseTag(d, false)], data),
                           Some(map["x" := Value("1")])))
    ensures DoProcess(Processor(false, false), Host(HTML, true, "th"), "~{frag::sel(x=1)}", col) ==
            Inserted(Some(data), map["x" := Value("1")], map[],
                     SetBody(Events([OpenTag(d, map[]), Text(a), CloseTag(d, false)]), true))
  {
    var f := col.evaluate("~{frag::sel(x=1)}").value;
    FragmentExpressionIsEvaluatedAsIs("~{frag::sel(x=1)}", col.evaluate);
    assert ReshapedParameters(f, "th", col) == f.parameters by {
      assert FragmentHolder(f.model.events) == Some(OpenTag(d, map[]));
    }
    DispatchOnModes(Processor(false, false), Host(HTML, true, "th"), "~{frag::sel(x=1)}", col, f);
  }

  /** `th:include="frag::sel"` of a selected element `<d>...</d>` in the same mode sets the body to its contents only. */
  lemma SameModeIncludeStripsEnvelope(col: Collaborators, data: TemplateData, d: string, inner: seq<Event>)
    requires data.mode == HTML && data.HasTemplateSelectors() && WellFormed(inner)
    requires col.evaluate("~{frag::sel}") == Some(Fragment(TemplateModel(Element(d, map[], inner), data), None))
    ensures DoProcess(Processor(false, true), Host(HTML, true, "th"), "frag::sel", col) ==
            Inserted(Some(data), map[], map[], SetBody(Events(inner), true))
  {
    var f := col.evaluate("~{frag::sel}").value;
    LegacyValueIsWrapped("frag::sel", col.evaluate);
    assert ReshapedParameters(f, "th", col) == None by {
      assert FragmentHolder(f.model.events) == Some(OpenTag(d, map[]));
    }
    EnvelopeInteriorKept(d, map[], inner);
    DispatchOnModes(Processor(false, true), Host(HTML, true, "th"), "frag::sel", col, f);
  }

  /** `th:include` of a TEXT-mode fragment into an HTML template fails, and no mutation is issued. */
  lemma CrossModeIncludeFails(col: Collaborators, f: Fragment)
    requires f.model.Mode() == TEXT
    requires col.evaluate("~{frag::sel}") == Some(f)
    ensures DoProcess(Processor(false, true), Host(HTML, true, "th"), "~{frag::sel}", col) == Error(CrossModeContentsOnly)
  {
    FragmentExpressionIsEvaluatedAsIs("~{frag::sel}", col.evaluate);
    DispatchOnModes(Processor(false, true), Host(HTML, true, "th"), "~{frag::sel}", col, f);
  }
}
