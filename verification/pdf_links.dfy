/** Link extraction from a PDF document (`extract_links`,
    `is_link_annotation`, `extract_link_dest`) over an abstract object
    model: loading and decoding the file is not modelled, a document is its
    object table and the annotation dictionaries of each page. */
module PdfLinks {
  import opened Wrappers

  /** An object number and generation. */
  type ObjectId = (nat, nat)

  /** A PDF object. Names and strings are given as text; reals and streams
      are not distinguished from one another. */
  datatype PdfObject =
    | Null
    | Boolean(flag: bool)
    | Integer(number: int)
    | Name(name: string)
    | PdfString(text: string)
    | Array(items: seq<PdfObject>)
    | Dictionary(entries: map<string, PdfObject>)
    | Reference(id: ObjectId)
    | OtherObject

  type Dict = map<string, PdfObject>

  /** A loaded document: the object table, and for each page in page order
      the annotation dictionaries found on it. `objects[id]` is what
      `get_object(id)` returns, with any chain of references already followed,
      so looking an identifier up here is the whole of that call. */
  datatype Document = Document(objects: map<ObjectId, PdfObject>, pageAnnotations: seq<seq<Dict>>)

  /** `dict.get(key).ok()`. */
  function Get(d: Dict, key: string): Option<PdfObject> {
    if key in d then Some(d[key]) else None
  }

  /** `is_link_annotation`: the `Subtype` entry exists, is a name, and that
      name is `Link`. */
  function IsLinkAnnotation(annotation: Dict): (b: bool)
    ensures b <==> "Subtype" in annotation && annotation["Subtype"] == Name("Link")
  {
    var subtype := Get(annotation, "Subtype");
    var name := match subtype
      case Some(Name(n)) => Some(n)
      case _ => None;
    match name
    case Some(n) => n == "Link"
    case None => false
  }

  /** `extract_link_dest`: `A` must be a reference, the referenced object a
      dictionary, and its `URI` entry a string; any other shape gives no link. */
  function ExtractLinkDest(annotation: Dict, objects: map<ObjectId, PdfObject>): (r: Option<string>)
    ensures r.Some? <==>
      && "A" in annotation && annotation["A"].Reference?
      && annotation["A"].id in objects && objects[annotation["A"].id].Dictionary?
      && "URI" in objects[annotation["A"].id].entries
      && objects[annotation["A"].id].entries["URI"].PdfString?
    ensures r.Some? ==> r.value == objects[annotation["A"].id].entries["URI"].text
  {
    match Get(annotation, "A")
    case Some(Reference(id)) =>
      if id !in objects then None
      else
        (match objects[id]
         case Dictionary(dest) =>
           (match Get(dest, "URI")
            case Some(PdfString(uri)) => Some(uri)
            case _ => None)
         case _ => None)
    case _ => None
  }

  /** The link an annotation contributes, if it contributes one. */
  function LinkOf(annotation: Dict, objects: map<ObjectId, PdfObject>): Option<string> {
    if IsLinkAnnotation(annotation) then ExtractLinkDest(annotation, objects) else None
  }

  /** Annotation `j` of page `p` is a link annotation whose destination is `uri`. */
  ghost predicate LinkAt(doc: Document, p: int, j: int, uri: string) {
    && 0 <= p < |doc.pageAnnotations| && 0 <= j < |doc.pageAnnotations[p]|
    && LinkOf(doc.pageAnnotations[p][j], doc.objects) == Some(uri)
  }

  /** Every link destination of the document. */
  ghost function LinkSet(doc: Document): set<string> {
    set p, j | 0 <= p < |doc.pageAnnotations| && 0 <= j < |doc.pageAnnotations[p]|
               && LinkOf(doc.pageAnnotations[p][j], doc.objects).Some?
      :: LinkOf(doc.pageAnnotations[p][j], doc.objects).value
  }

  /** `extract_links`: every page, every annotation, collected into a set, so
      that a destination linked many times appears once. */
  method ExtractLinks(doc: Document) returns (links: set<string>)
    ensures forall uri :: uri in links <==> exists p, j :: LinkAt(doc, p, j, uri)
    ensures links == LinkSet(doc)
  {
    links := {};
    var p := 0;
    while p < |doc.pageAnnotations|
      invariant 0 <= p <= |doc.pageAnnotations|
      invariant forall uri :: uri in links <==> exists q, j :: q < p && LinkAt(doc, q, j, uri)
    {
      var annotations := doc.pageAnnotations[p];
      var j := 0;
      while j < |annotations|
        invariant 0 <= j <= |annotations|
        invariant forall uri :: uri in links <==>
          (exists q, k :: q < p && LinkAt(doc, q, k, uri)) || (exists k :: k < j && LinkAt(doc, p, k, uri))
      {
        var annotation := annotations[j];
        if IsLinkAnnotation(annotation) {
          var dest := ExtractLinkDest(annotation, doc.objects);
          if dest.Some? {
            links := links + {dest.value};
            assert LinkAt(doc, p, j, dest.value);
          }
        }
        j := j + 1;
      }
      p := p + 1;
    }
    assert links == LinkSet(doc) by {
      forall uri | uri in LinkSet(doc) ensures uri in links {
        var p, j :| 0 <= p < |doc.pageAnnotations| && 0 <= j < |doc.pageAnnotations[p]|
                    && LinkOf(doc.pageAnnotations[p][j], doc.objects) == Some(uri);
        assert LinkAt(doc, p, j, uri);
      }
    }
  }
}
