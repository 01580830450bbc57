/**
  The data the fragment-insertion processor works on: template events, template
  models, fragments with their parameters, and the optional values its
  collaborators hand back in place of Java's null.
 */
module Model {

  /** A value that may be absent; stands for a Java reference that may be null. */
  datatype Option<+T> = None | Some(value: T)

  /** The template modes a template (or a fragment of one) can be parsed in. */
  datatype TemplateMode = HTML | XML | TEXT | JAVASCRIPT | CSS | RAW

  /** An attribute name as the attribute library resolves it: dialect prefix plus local name. */
  datatype AttrKey = AttrKey(prefix: string, name: string)

  /**
    One event of a parsed template. Open and standalone tags carry their
    attributes (escaped, as written in the template); a close tag is
    `unmatched` when its open tag lies outside the selected slice of the
    template. CDATA sections, DOCTYPEs, XML declarations and processing
    instructions play no part in this core and are represented by `Text`.
   */
  datatype Event =
    | TemplateStart
    | TemplateEnd
    | OpenTag(name: string, attributes: map<AttrKey, string>)
    | StandaloneTag(name: string, attributes: map<AttrKey, string>)
    | CloseTag(name: string, unmatched: bool)
    | Text(content: string)
    | Comment(content: string)
  {
    /** An element tag whose attributes can be inspected (open or standalone). */
    predicate IsProcessableTag() {
      OpenTag? || StandaloneTag?
    }
  }

  /** Resolution data of a template; the selectors are non-empty when the model is a selection of it. */
  datatype TemplateData = TemplateData(template: string, selectors: seq<string>, mode: TemplateMode)
  {
    predicate HasTemplateSelectors() {
      |selectors| > 0
    }
  }

  /** A parsed template (or selection of one): its events and its resolution data. */
  datatype TemplateModel = TemplateModel(events: seq<Event>, data: TemplateData)
  {
    function Mode(): TemplateMode {
      data.mode
    }
  }

  /** A fragment parameter value; values are opaque to this component. */
  datatype Value = Value(token: string)

  type Params = map<string, Value>

  /** The result of executing a fragment expression: the selected model and its (possibly null) parameters. */
  datatype Fragment = Fragment(model: TemplateModel, parameters: Option<Params>)

  /** A parsed `th:fragment` signature; its internals belong to the signature library. */
  datatype Signature = Signature(fragmentName: string, parameterNames: seq<string>)

  /** Whether a parameter map is present and holds at least one entry. */
  predicate HasParameters(p: Option<Params>) {
    p.Some? && |p.value| > 0
  }
}
