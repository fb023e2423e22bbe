/**
 * An already-parsed XML document as the org.w3c.dom interfaces show it to the
 * menu builder: every node has a node name (elements their tag, text and
 * comment nodes "#text" and "#comment"), a set of attributes and its child
 * nodes in document order.
 */
module Dom {
  datatype XNode = XNode(name: string, attrs: map<string, string>, children: seq<XNode>)

  /** Document.getDocumentElement() is the root element. */
  datatype Document = Document(documentElement: XNode)

  /** Element.hasAttribute */
  predicate HasAttribute(e: XNode, attr: string) {
    attr in e.attrs
  }

  /** Element.getAttribute, which answers "" for an attribute that is not there. */
  function GetAttribute(e: XNode, attr: string): string {
    if attr in e.attrs then e.attrs[attr] else ""
  }
}
