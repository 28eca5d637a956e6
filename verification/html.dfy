/**
 The parsed content tree of an article, as far as the pipeline looks at it.
 The HTML parser and serialiser are external; the model keeps the nodes in
 document order, each either an `<img>` element with its attributes or
 any other markup, which the pipeline never inspects.
 */
module Html {
  import opened GoLib

  /** Attributes of an element, name to value. */
  type Attrs = map<string, string>

  datatype Node = Img(attrs: Attrs) | Markup(html: string)

  /** The nodes of a content tree in document order; `doc.Find("img")`
      visits exactly the `Img` nodes, in this order. */
  type Doc = seq<Node>

  /** The `src` attribute of an `<img>` node, if it has one. */
  function Src(n: Node): Option<string>
  {
    if n.Img? && "src" in n.attrs then Some(n.attrs["src"]) else None
  }

  /** Every `src` attribute of an `<img>` in the document. */
  function Srcs(doc: Doc): set<string>
  {
    set j | 0 <= j < |doc| && Src(doc[j]).Some? :: Src(doc[j]).value
  }
}
