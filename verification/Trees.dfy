/** Values of XML nodes and of whole trees (mxml.h), and attribute lists as ordered maps. */
module Trees {
  import opened Options

  datatype Attr = Attr(name: string, value: Option<string>)

  /** A tree, as its value: what `mxml_node_t` and everything below it holds. */
  datatype Tree =
    | Element(name: string, attrs: seq<Attr>, kids: seq<Tree>)
    | Integer(n: int)
    | Opaque(s: string)
    | Text(ws: bool, s: string)

  /** Index of the first attribute called `name`, or the number of attributes */
  function FindAttr(attrs: seq<Attr>, name: string): (i: nat)
    ensures i <= |attrs|
    ensures i < |attrs| ==> attrs[i].name == name
    ensures forall j :: 0 <= j < i ==> attrs[j].name != name
  {
    if attrs == [] then 0
    else if attrs[0].name == name then 0
    else 1 + FindAttr(attrs[1..], name)
  }

  /** `mxmlElementGetAttr` on the attribute list of an element */
  function GetAttr(attrs: seq<Attr>, name: string): Option<string> {
    var i := FindAttr(attrs, name);
    if i < |attrs| then attrs[i].value else None
  }

  /** `mxml_set_attr` on the attribute list of an element */
  function SetAttr(attrs: seq<Attr>, name: string, value: Option<string>): seq<Attr> {
    var i := FindAttr(attrs, name);
    if i < |attrs| then attrs[i := Attr(attrs[i].name, value)] else attrs + [Attr(name, value)]
  }

  /** `mxmlElementDeleteAttr` on the attribute list of an element */
  function DeleteAttr(attrs: seq<Attr>, name: string): seq<Attr> {
    var i := FindAttr(attrs, name);
    if i < |attrs| then attrs[..i] + attrs[i + 1..] else attrs
  }

  /** No two attributes of an element have the same name. */
  ghost predicate UniqueNames(attrs: seq<Attr>) {
    forall i, j :: 0 <= i < j < |attrs| ==> attrs[i].name != attrs[j].name
  }
}
