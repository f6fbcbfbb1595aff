/**
 * MSBuild project files (`.csproj`) as the services see them through
 * `XmlDocument`.
 *
 * A document is its root element's namespace URI and its elements in
 * document order. Each element keeps its namespace URI, its local name, its
 * text (`InnerText`) and its `Include` attribute, if it has one. That is all
 * `SelectNodes("//Name")`, `SelectNodes("//ms:Name", manager)`, `InnerText`
 * and `Attributes["Include"]` reach.
 */
module MsBuild {
  import opened Wrappers

  const MsBuildNamespace: string := "http://schemas.microsoft.com/developer/msbuild/2003"

  datatype Element = Element(namespaceUri: string, localName: string, text: string, includeAttribute: Option<string>)

  datatype Descriptor = Descriptor(rootNamespaceUri: string, elements: seq<Element>)

  /**
   * The namespace the element query looks in: the MSBuild namespace when the
   * root element is in it (legacy project files, queried as `//ms:Name`),
   * and no namespace otherwise (SDK-style files, queried as `//Name`).
   */
  function QueryNamespace(rootNamespaceUri: string): (ns: string)
    ensures ns == MsBuildNamespace <==> rootNamespaceUri == MsBuildNamespace
    ensures ns == "" <==> rootNamespaceUri != MsBuildNamespace
  {
    if rootNamespaceUri == MsBuildNamespace then MsBuildNamespace else ""
  }

  /** Whether the query for elements called `name` returns `e`. */
  predicate Selects(rootNamespaceUri: string, name: string, e: Element)
  {
    e.localName == name && e.namespaceUri == QueryNamespace(rootNamespaceUri)
  }

  /**
   * `SelectNodes` for elements called `name`: the positions of the selected
   * elements, in document order.
   */
  function SelectedIndices(rootNamespaceUri: string, elements: seq<Element>, name: string): (r: seq<nat>)
    ensures forall t :: 0 <= t < |r| ==> r[t] < |elements| && Selects(rootNamespaceUri, name, elements[r[t]])
  {
    if elements == [] then []
    else
      var n := |elements| - 1;
      var r := SelectedIndices(rootNamespaceUri, elements[..n], name);
      if Selects(rootNamespaceUri, name, elements[n]) then r + [n] else r
  }

  /** Every selected element is in the query's result. */
  lemma {:induction false} SelectedIndicesComplete(rootNamespaceUri: string, elements: seq<Element>, name: string, k: nat)
    requires k < |elements| && Selects(rootNamespaceUri, name, elements[k])
    ensures k in SelectedIndices(rootNamespaceUri, elements, name)
  {
    var n := |elements| - 1;
    if k < n {
      SelectedIndicesComplete(rootNamespaceUri, elements[..n], name, k);
    } else {
      assert SelectedIndices(rootNamespaceUri, elements, name)
             == SelectedIndices(rootNamespaceUri, elements[..n], name) + [n];
    }
  }

  /** The result is in document order, so it lists each element at most once. */
  predicate Increasing(r: seq<nat>)
  {
    forall s, t :: 0 <= s < t < |r| ==> r[s] < r[t]
  }

  lemma {:induction false} SelectedIndicesIncreasing(rootNamespaceUri: string, elements: seq<Element>, name: string)
    ensures Increasing(SelectedIndices(rootNamespaceUri, elements, name))
  {
    if elements != [] {
      var n := |elements| - 1;
      var prefix := SelectedIndices(rootNamespaceUri, elements[..n], name);
      SelectedIndicesIncreasing(rootNamespaceUri, elements[..n], name);
      var r := SelectedIndices(rootNamespaceUri, elements, name);
      assert r == prefix + [n] || r == prefix;
      forall s, t | 0 <= s < t < |r|
        ensures r[s] < r[t]
      {
        if t < |prefix| {
          assert r[s] == prefix[s] && r[t] == prefix[t];
        } else {
          assert r[s] == prefix[s] < n && r[t] == n;
        }
      }
    }
  }

  /** A position in the result does not occur earlier in it. */
  lemma SelectedIndicesDistinct(rootNamespaceUri: string, elements: seq<Element>, name: string, i: nat)
    requires i < |SelectedIndices(rootNamespaceUri, elements, name)|
    ensures var r := SelectedIndices(rootNamespaceUri, elements, name);
            r[i] !in r[..i]
  {
    SelectedIndicesIncreasing(rootNamespaceUri, elements, name);
  }

  /** A loaded `XmlDocument`, whose elements are changed in place. */
  class ProjectDocument {
    const rootNamespaceUri: string
    var elements: seq<Element>

    /** `XmlDocument.Load` of a file holding `d`. */
    constructor Load(d: Descriptor)
      ensures Value() == d
    {
      rootNamespaceUri := d.rootNamespaceUri;
      elements := d.elements;
    }

    /** What `XmlDocument.Save` writes. */
    function Value(): Descriptor
      reads this
    {
      Descriptor(rootNamespaceUri, elements)
    }

    /** `node.InnerText = text` on the k-th element. */
    method SetText(k: nat, text: string)
      requires k < |elements|
      modifies this
      ensures elements == old(elements)[k := old(elements)[k].(text := text)]
    {
      elements := elements[k := elements[k].(text := text)];
    }

    /** `includeAttr.Value = value` on the k-th element, which has the attribute. */
    method SetInclude(k: nat, value: string)
      requires k < |elements| && elements[k].includeAttribute.Some?
      modifies this
      ensures elements == old(elements)[k := old(elements)[k].(includeAttribute := Some(value))]
    {
      elements := elements[k := elements[k].(includeAttribute := Some(value))];
    }
  }
}
