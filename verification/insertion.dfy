/**
  `doProcess` of the fragment-insertion tag processor (`th:insert`,
  `th:replace` and the deprecated `th:include`): resolve the fragment, reshape
  its parameters against the signature of the fragment's holder element, and
  issue exactly one mutation of the host element, or fail.

  The expression evaluator, the attribute unescaper, the signature library and
  the nested template engine run are collaborators whose internals are not
  part of this model; they are the uninterpreted functions of `Collaborators`.
 */
module Insertion {
  import opened Model
  import opened Directive
  import opened Envelope

  /** The attribute of a fragment's holder element that declares its signature. */
  const FragmentAttrName: string := "fragment"

  datatype Collaborators = Collaborators(
    // parse the expression text and execute it: a fragment, or null
    evaluate: string -> Option<Fragment>,
    // unescape an attribute value written in the given template mode
    unescape: (TemplateMode, string) -> string,
    // FragmentSignatureUtils.parseFragmentSignature: a signature, or null
    parseSignature: string -> Option<Signature>,
    // FragmentSignatureUtils.processParameters
    processParameters: (Signature, Option<Params>) -> Option<Params>,
    // the nested template engine run: the text a model renders to, given the variables set for it
    render: (TemplateModel, Params) -> string)

  /** The two construction-time flags that make a processor `th:insert`, `th:replace` or `th:include`. */
  datatype Processor = Processor(replaceHost: bool, insertOnlyContents: bool)

  /** What `doProcess` sees of the template being processed and of the host attribute. */
  datatype Host = Host(mode: TemplateMode, engineContext: bool, dialectPrefix: string)

  datatype ErrorKind =
    | UnparsableFragment        // computeFragment gave null
    | CrossModeContentsOnly     // th:include across template modes
    | NoLocalVariableSupport    // parameters across modes without an engine context

  datatype Content = Events(events: seq<Event>) | RenderedText(text: string)

  /** The one mutation of the host issued by the structure handler. */
  datatype Mutation =
    | ReplaceWith(content: Content, processable: bool)
    | SetBody(content: Content, processable: bool)

  /**
    The outcome of `doProcess`: an exception, or the mutation together with
    the side outputs set before it: template data and local variables on the
    structure handler, and variables set directly on the engine context.
   */
  datatype Outcome =
    | Error(kind: ErrorKind)
    | Inserted(templateData: Option<TemplateData>, localVariables: Params,
               contextVariables: Params, mutation: Mutation)

  /** `replaceWith` when the host is replaced, `setBody` when only its body is. */
  function Mutate(replaceHost: bool, content: Content, processable: bool): (m: Mutation)
    ensures m.content == content && m.processable == processable
    ensures m.ReplaceWith? <==> replaceHost
  {
    if replaceHost then ReplaceWith(content, processable) else SetBody(content, processable)
  }

  /**
    The event that may hold the fragment signature: the first event, or the
    second when the first is a template start and there are at least three
    events (start, holder, end).
   */
  function FragmentHolder(events: seq<Event>): (r: Option<Event>)
    ensures |events| >= 1 && !events[0].TemplateStart? ==> r == Some(events[0])
    ensures |events| >= 3 && events[0].TemplateStart? ==> r == Some(events[1])
    ensures r.None? <==> |events| == 0 || (events[0].TemplateStart? && |events| < 3)
  {
    if |events| == 0 then None
    else if events[0].TemplateStart? then (if |events| >= 3 then Some(events[1]) else None)
    else Some(events[0])
  }

  /** The signature declared on the holder, if the holder is a tag with a non-blank, parsable `fragment` attribute. */
  function DeclaredSignature(model: TemplateModel, dialectPrefix: string, col: Collaborators): Option<Signature>
  {
    var key := AttrKey(dialectPrefix, FragmentAttrName);
    match FragmentHolder(model.events)
    case Some(holder) =>
      if holder.IsProcessableTag() && key in holder.attributes then
        var spec := col.unescape(model.Mode(), holder.attributes[key]);
        if !IsBlank(spec) then col.parseSignature(spec) else None
      else None
    case None => None
  }

  /**
    The parameters applied to the fragment: reshaped by the signature library
    when the holder declares a signature, passed through unchanged otherwise.
   */
  function ReshapedParameters(fragment: Fragment, dialectPrefix: string, col: Collaborators): (r: Option<Params>)
    ensures
      var key := AttrKey(dialectPrefix, FragmentAttrName);
      var holder := FragmentHolder(fragment.model.events);
      if holder.Some? && holder.value.IsProcessableTag() && key in holder.value.attributes
         && !IsBlank(col.unescape(fragment.model.Mode(), holder.value.attributes[key]))
         && col.parseSignature(col.unescape(fragment.model.Mode(), holder.value.attributes[key])).Some?
      then r == col.processParameters(
                  col.parseSignature(col.unescape(fragment.model.Mode(), holder.value.attributes[key])).value,
                  fragment.parameters)
      else r == fragment.parameters
  {
    match DeclaredSignature(fragment.model, dialectPrefix, col)
    case Some(signature) => col.processParameters(signature, fragment.parameters)
    case None => fragment.parameters
  }

  /** The parameters as a map to set as variables: empty when null or empty. */
  function VariablesOf(p: Option<Params>): (m: Params)
    ensures HasParameters(p) ==> m == p.value
    ensures !HasParameters(p) ==> m == map[]
  {
    if HasParameters(p) then p.value else map[]
  }

  /** Cross-template-mode insertion: render the fragment aside and insert the result as final text. */
  function InsertRendered(proc: Processor, host: Host, model: TemplateModel, params: Option<Params>,
                          col: Collaborators): (r: Outcome)
    requires host.mode != model.Mode()
    ensures r.Error? <==> proc.insertOnlyContents || (HasParameters(params) && !host.engineContext)
    ensures r.Error? && proc.insertOnlyContents ==> r.kind == CrossModeContentsOnly
    ensures r.Error? && !proc.insertOnlyContents ==> r.kind == NoLocalVariableSupport
    ensures r.Inserted? ==>
              && r.templateData.None?
              && r.localVariables == map[]
              && r.contextVariables == VariablesOf(params)
              && r.mutation == Mutate(proc.replaceHost, RenderedText(col.render(model, VariablesOf(params))), false)
  {
    if proc.insertOnlyContents then Error(CrossModeContentsOnly)
    else if HasParameters(params) && !host.engineContext then Error(NoLocalVariableSupport)
    else
      var variables := VariablesOf(params);
      var text := col.render(model, variables);
      Inserted(None, map[], variables, Mutate(proc.replaceHost, RenderedText(text), false))
  }

  /**
    Same-template-mode insertion: set the template data and the parameters as
    local variables, and insert the events to be processed further, with
    their envelopes stripped for contents-only insertion of a selection.
   */
  function InsertEvents(proc: Processor, model: TemplateModel, params: Option<Params>): (r: Outcome)
    ensures r.Inserted? && r.templateData == Some(model.data)
    ensures r.localVariables == VariablesOf(params) && r.contextVariables == map[]
    ensures r.mutation.processable && (r.mutation.ReplaceWith? <==> proc.replaceHost)
    ensures proc.insertOnlyContents && model.data.HasTemplateSelectors() ==>
              r.mutation.content == Events(TopLevelRemoved(model.events))
    ensures !(proc.insertOnlyContents && model.data.HasTemplateSelectors()) ==>
              r.mutation.content == Events(model.events)
  {
    var events :=
      if proc.insertOnlyContents && model.data.HasTemplateSelectors()
      then TopLevelRemoved(model.events)
      else model.events;
    Inserted(Some(model.data), VariablesOf(params), map[], Mutate(proc.replaceHost, Events(events), true))
  }

  /** `doProcess`: the whole decision from attribute value to outcome. */
  function DoProcess(proc: Processor, host: Host, attributeValue: string, col: Collaborators): (r: Outcome)
    ensures r == Error(UnparsableFragment) <==> ComputeFragment(attributeValue, col.evaluate).None?
    ensures r.Inserted? ==> (r.mutation.ReplaceWith? <==> proc.replaceHost)
    ensures r.Inserted? ==>
              var model := ComputeFragment(attributeValue, col.evaluate).value.model;
              (r.mutation.processable <==> host.mode == model.Mode()) &&
              (r.mutation.processable <==> r.mutation.content.Events?) &&
              (r.mutation.processable <==> r.templateData == Some(model.data))
  {
    match ComputeFragment(attributeValue, col.evaluate)
    case None => Error(UnparsableFragment)
    case Some(fragment) =>
      var params := ReshapedParameters(fragment, host.dialectPrefix, col);
      if host.mode != fragment.model.Mode() then InsertRendered(proc, host, fragment.model, params, col)
      else InsertEvents(proc, fragment.model, params)
  }

  /** Once the value resolves to a fragment, the template modes alone choose between the two insertion paths. */
  lemma DispatchOnModes(proc: Processor, host: Host, attributeValue: string, col: Collaborators, fragment: Fragment)
    requires ComputeFragment(attributeValue, col.evaluate) == Some(fragment)
    ensures var params := ReshapedParameters(fragment, host.dialectPrefix, col);
            DoProcess(proc, host, attributeValue, col) ==
            if host.mode != fragment.model.Mode() then InsertRendered(proc, host, fragment.model, params, col)
            else InsertEvents(proc, fragment.model, params)
  {
  }

  /**
    Whether the context is an engine context is consulted only on one path:
    two hosts differing in nothing else get different outcomes only for a
    cross-mode insertion of a whole fragment with parameters to set.
   */
  lemma EngineContextMattersOnlyForCrossModeParameters(proc: Processor, h1: Host, h2: Host,
                                                       attributeValue: string, col: Collaborators)
    requires h1.mode == h2.mode && h1.dialectPrefix == h2.dialectPrefix
    ensures DoProcess(proc, h1, attributeValue, col) != DoProcess(proc, h2, attributeValue, col) ==>
              var f := ComputeFragment(attributeValue, col.evaluate);
              && f.Some?
              && f.value.model.Mode() != h1.mode
              && !proc.insertOnlyContents
              && HasParameters(ReshapedParameters(f.value, h1.dialectPrefix, col))
              && h1.engineContext != h2.engineContext
  {
  }

  /**
    A model wrapped in template start and end events declares the same
    signature as the bare model: the holder is the event after the start.
   */
  lemma TemplateWrapperKeepsParameters(bare: seq<Event>, data: TemplateData, parameters: Option<Params>,
                                       dialectPrefix: string, col: Collaborators)
    requires |bare| >= 1 && !bare[0].TemplateStart?
    ensures ReshapedParameters(Fragment(TemplateModel([TemplateStart] + bare + [TemplateEnd], data), parameters), dialectPrefix, col)
            == ReshapedParameters(Fragment(TemplateModel(bare, data), parameters), dialectPrefix, col)
  {
    var wrapped := [TemplateStart] + bare + [TemplateEnd];
    assert wrapped[0] == TemplateStart && wrapped[1] == bare[0];
    assert FragmentHolder(wrapped) == FragmentHolder(bare);
  }
}
