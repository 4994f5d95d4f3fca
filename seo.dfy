/**
 * The head-tag helpers: each one looks in the document head for an element
 * matching a selector, creates and appends one when there is none, and then
 * writes one attribute or the text of the element it found or made.
 */
module Seo {
  import opened Wrappers

  /** An element of the head: its tag name, its attributes and its text. */
  datatype Element = Element(tag: string, attrs: map<string, string>, text: string)

  /** A selector of the form `tag[attr="value"]`. */
  datatype Selector = Selector(tag: string, attr: string, value: string)

  predicate Matches(e: Element, sel: Selector) {
    e.tag == sel.tag && sel.attr in e.attrs && e.attrs[sel.attr] == sel.value
  }

  /** `document.head.querySelector(sel)`: the position of the first child, in
      document order, that matches, or none. */
  function QuerySelector(children: seq<Element>, sel: Selector): (r: Option<nat>)
    ensures r.None? <==> forall i :: 0 <= i < |children| ==> !Matches(children[i], sel)
    ensures r.Some? ==>
              && r.value < |children| && Matches(children[r.value], sel)
              && forall i :: 0 <= i < r.value ==> !Matches(children[i], sel)
  {
    if children == [] then None
    else if Matches(children[0], sel) then Some(0)
    else
      match QuerySelector(children[1..], sel)
      case None =>
        assert forall i :: 1 <= i < |children| ==> children[i] == children[1..][i - 1];
        None
      case Some(i) =>
        assert forall j :: 1 <= j <= i ==> children[j] == children[1..][j - 1];
        Some(i + 1)
  }

  /** The first match is the only position with a match and none before it. */
  lemma FirstMatchIs(children: seq<Element>, sel: Selector, i: nat)
    requires i < |children| && Matches(children[i], sel)
    requires forall j :: 0 <= j < i ==> !Matches(children[j], sel)
    ensures QuerySelector(children, sel) == Some(i)
  {
  }

  /** How many children match the selector. */
  function CountMatches(children: seq<Element>, sel: Selector): (n: nat)
    ensures n <= |children|
    ensures n == 0 <==> QuerySelector(children, sel).None?
  {
    if children == [] then 0
    else (if Matches(children[0], sel) then 1 else 0) + CountMatches(children[1..], sel)
  }

  lemma {:induction false} CountMatchesAppend(children: seq<Element>, e: Element, sel: Selector)
    ensures CountMatches(children + [e], sel) == CountMatches(children, sel) + (if Matches(e, sel) then 1 else 0)
    decreases |children|
  {
    if children != [] {
      assert (children + [e])[1..] == children[1..] + [e];
      CountMatchesAppend(children[1..], e, sel);
    }
  }

  lemma {:induction false} CountMatchesUpdate(children: seq<Element>, i: nat, e: Element, sel: Selector)
    requires i < |children| && (Matches(e, sel) <==> Matches(children[i], sel))
    ensures CountMatches(children[i := e], sel) == CountMatches(children, sel)
    decreases i
  {
    if i > 0 {
      assert children[i := e][1..] == children[1..][i - 1 := e];
      CountMatchesUpdate(children[1..], i - 1, e, sel);
    }
  }

  /** One change an element undergoes: `setAttribute(name, value)` or an
      assignment to `textContent`. */
  datatype Write = SetAttribute(name: string, value: string) | SetText(text: string)

  /** The element shows the value the write put there. */
  predicate Carries(e: Element, w: Write) {
    match w
    case SetAttribute(name, value) => name in e.attrs && e.attrs[name] == value
    case SetText(text) => e.text == text
  }

  /** The write does not touch the attribute the selector tests. */
  predicate KeepsMatch(w: Write, sel: Selector) {
    w.SetAttribute? ==> w.name != sel.attr
  }

  /** The second write replaces whatever the first one wrote. */
  predicate Overrides(w2: Write, w1: Write) {
    match w1
    case SetAttribute(name, _) => w2.SetAttribute? && w2.name == name
    case SetText(_) => w2.SetText?
  }

  /** Performing a write: afterwards the element carries it, and its tag and
      everything the write does not name are as before. */
  function Apply(e: Element, w: Write): (r: Element)
    ensures Carries(r, w)
    ensures r.tag == e.tag
    ensures w.SetAttribute? ==> r.text == e.text && r.attrs.Keys == e.attrs.Keys + {w.name}
    ensures w.SetText? ==> r.attrs == e.attrs
    ensures forall k :: k in e.attrs && !(w.SetAttribute? && w.name == k) ==> r.attrs[k] == e.attrs[k]
  {
    match w
    case SetAttribute(name, value) => e.(attrs := e.attrs[name := value])
    case SetText(text) => e.(text := text)
  }

  /** A write that leaves the tested attribute alone keeps an element's match. */
  lemma ApplyKeepsMatch(e: Element, w: Write, sel: Selector)
    requires KeepsMatch(w, sel)
    ensures Matches(Apply(e, w), sel) <==> Matches(e, sel)
  {
  }

  /** A later write that overrides an earlier one leaves no trace of it. */
  lemma ApplyOverrides(e: Element, w1: Write, w2: Write)
    requires Overrides(w2, w1)
    ensures Apply(Apply(e, w1), w2) == Apply(e, w2)
  {
  }

  /** Find or create: the first match gets the write; with no match, the
      element `created` gets it and is appended. */
  function Upsert(children: seq<Element>, sel: Selector, created: Element, w: Write): (r: seq<Element>)
    ensures |r| == |children| <==> QuerySelector(children, sel).Some?
    ensures |r| == |children| || |r| == |children| + 1
  {
    match QuerySelector(children, sel)
    case Some(i) => children[i := Apply(children[i], w)]
    case None => children + [Apply(created, w)]
  }

  /** With a match present nothing is appended: the first match alone gets
      the write, keeps its tag and the attributes the write does not name,
      and every other child is unchanged. */
  lemma UpsertExisting(children: seq<Element>, sel: Selector, created: Element, w: Write, i: nat)
    requires QuerySelector(children, sel) == Some(i)
    ensures |Upsert(children, sel, created, w)| == |children|
    ensures Upsert(children, sel, created, w)[i] == Apply(children[i], w)
    ensures Carries(Upsert(children, sel, created, w)[i], w)
    ensures Upsert(children, sel, created, w)[i].tag == children[i].tag
    ensures forall k :: k in children[i].attrs && !(w.SetAttribute? && w.name == k) ==>
              Upsert(children, sel, created, w)[i].attrs[k] == children[i].attrs[k]
    ensures forall j :: 0 <= j < |children| && j != i ==> Upsert(children, sel, created, w)[j] == children[j]
  {
  }

  /** With no match exactly one element is appended, after the unchanged
      children: the created one, carrying the write. */
  lemma UpsertMissing(children: seq<Element>, sel: Selector, created: Element, w: Write)
    requires QuerySelector(children, sel).None?
    ensures |Upsert(children, sel, created, w)| == |children| + 1
    ensures Upsert(children, sel, created, w)[..|children|] == children
    ensures Upsert(children, sel, created, w)[|children|] == Apply(created, w)
  {
  }

  /** When the created element matches and the write keeps matches, the
      selector afterwards finds the element that was written, at the old
      first match or at the end. */
  lemma {:induction false} UpsertThenFind(children: seq<Element>, sel: Selector, created: Element, w: Write)
    requires Matches(created, sel) && KeepsMatch(w, sel)
    ensures var r := Upsert(children, sel, created, w);
            var found := QuerySelector(children, sel);
            && QuerySelector(r, sel) == Some(if found.Some? then found.value else |children|)
            && Carries(r[QuerySelector(r, sel).value], w)
  {
    var r := Upsert(children, sel, created, w);
    match QuerySelector(children, sel)
    case Some(i) =>
      ApplyKeepsMatch(children[i], w, sel);
      FirstMatchIs(r, sel, i);
    case None =>
      ApplyKeepsMatch(created, w, sel);
      FirstMatchIs(r, sel, |children|);
  }

  /** No duplicate is ever created: afterwards exactly as many children match
      as before, or one if none did. */
  lemma {:induction false} UpsertNoDuplicate(children: seq<Element>, sel: Selector, created: Element, w: Write)
    requires Matches(created, sel) && KeepsMatch(w, sel)
    ensures var before := CountMatches(children, sel);
            CountMatches(Upsert(children, sel, created, w), sel) == if before == 0 then 1 else before
  {
    match QuerySelector(children, sel)
    case Some(i) =>
      ApplyKeepsMatch(children[i], w, sel);
      CountMatchesUpdate(children, i, Apply(children[i], w), sel);
    case None =>
      ApplyKeepsMatch(created, w, sel);
      CountMatchesAppend(children, Apply(created, w), sel);
  }

  /** Last write wins: upserting twice on the same selector, the second
      write overriding the first, is the same as upserting the second alone. */
  lemma {:induction false} UpsertTwice(children: seq<Element>, sel: Selector, created: Element, w1: Write, w2: Write)
    requires Matches(created, sel) && KeepsMatch(w1, sel) && Overrides(w2, w1)
    ensures Upsert(Upsert(children, sel, created, w1), sel, created, w2) == Upsert(children, sel, created, w2)
  {
    var r1 := Upsert(children, sel, created, w1);
    UpsertThenFind(children, sel, created, w1);
    match QuerySelector(children, sel)
    case Some(i) =>
      ApplyOverrides(children[i], w1, w2);
      assert r1[i := Apply(r1[i], w2)] == children[i := Apply(children[i], w2)];
    case None =>
      ApplyOverrides(created, w1, w2);
      assert r1[|children| := Apply(r1[|children|], w2)] == children + [Apply(created, w2)];
  }

  /** `Object.entries(attributes).forEach(([key, value]) => setAttribute(key, value))`
      applied to attribute map `attrs`, entry by entry. */
  function WithEntries(attrs: map<string, string>, entries: seq<(string, string)>): map<string, string>
    decreases |entries|
  {
    if entries == [] then attrs
    else
      var last := entries[|entries| - 1];
      WithEntries(attrs, entries[..|entries| - 1])[last.0 := last.1]
  }

  /** After the entries are written, each key holds the value of its last
      entry. */
  lemma {:induction false} WithEntriesLastWins(attrs: map<string, string>, entries: seq<(string, string)>)
    ensures forall j :: 0 <= j < |entries| && (forall l :: j < l < |entries| ==> entries[l].0 != entries[j].0) ==>
              entries[j].0 in WithEntries(attrs, entries) && WithEntries(attrs, entries)[entries[j].0] == entries[j].1
    decreases |entries|
  {
    if entries != [] {
      var n := |entries| - 1;
      WithEntriesLastWins(attrs, entries[..n]);
      assert forall j :: 0 <= j < n ==> entries[..n][j] == entries[j];
    }
  }

  /** A key no entry names keeps what it had, or stays absent. */
  lemma {:induction false} WithEntriesKeepsOthers(attrs: map<string, string>, entries: seq<(string, string)>, k: string)
    requires forall j :: 0 <= j < |entries| ==> entries[j].0 != k
    ensures k in WithEntries(attrs, entries) <==> k in attrs
    ensures k in attrs ==> WithEntries(attrs, entries)[k] == attrs[k]
    decreases |entries|
  {
    if entries != [] {
      var n := |entries| - 1;
      assert forall j :: 0 <= j < n ==> entries[..n][j] == entries[j];
      WithEntriesKeepsOthers(attrs, entries[..n], k);
    }
  }

  /** The loop that writes the identifying attributes of a new element. */
  method SetAttributes(e: Element, entries: seq<(string, string)>) returns (r: Element)
    ensures r == e.(attrs := WithEntries(e.attrs, entries))
  {
    r := e;
    for i := 0 to |entries|
      invariant r == e.(attrs := WithEntries(e.attrs, entries[..i]))
    {
      assert entries[..i + 1][..i] == entries[..i];
      r := Apply(r, SetAttribute(entries[i].0, entries[i].1));
    }
    assert entries[..|entries|] == entries;
  }

  /** `upsertMeta(selector, attributes, content)`: a new element is a `meta`
      with the given attributes; the write is its `content` attribute. */
  function AfterUpsertMeta(children: seq<Element>, sel: Selector, attributes: seq<(string, string)>,
                           content: string): seq<Element>
  {
    Upsert(children, sel, Element("meta", WithEntries(map[], attributes), ""), SetAttribute("content", content))
  }

  function MetaNameSelector(name: string): Selector {
    Selector("meta", "name", name)
  }

  function MetaPropertySelector(property: string): Selector {
    Selector("meta", "property", property)
  }

  const CanonicalSelector: Selector := Selector("link", "rel", "canonical")

  function JsonLdSelector(id: string): Selector {
    Selector("script", "data-seo-id", id)
  }

  /** `setMetaName(name, content)`. */
  function AfterSetMetaName(children: seq<Element>, name: string, content: string): seq<Element> {
    AfterUpsertMeta(children, MetaNameSelector(name), [("name", name)], content)
  }

  /** `setMetaProperty(property, content)`. */
  function AfterSetMetaProperty(children: seq<Element>, property: string, content: string): seq<Element> {
    AfterUpsertMeta(children, MetaPropertySelector(property), [("property", property)], content)
  }

  /** The element `setCanonical` creates when there is none. */
  const CanonicalLink: Element := Element("link", map["rel" := "canonical"], "")

  /** `setCanonical(href)`. */
  function AfterSetCanonical(children: seq<Element>, href: string): seq<Element> {
    Upsert(children, CanonicalSelector, CanonicalLink, SetAttribute("href", href))
  }

  /** The element `setJsonLd` creates when there is none for `id`. */
  function JsonLdScript(id: string): Element {
    Element("script", map["type" := "application/ld+json", "data-seo-id" := id], "")
  }

  /** `setJsonLd(id, payload)`, where `serialized` is `JSON.stringify(payload)`. */
  function AfterSetJsonLd(children: seq<Element>, id: string, serialized: string): seq<Element> {
    Upsert(children, JsonLdSelector(id), JsonLdScript(id), SetText(serialized))
  }

  /** The element `setMetaName` would create matches its own selector. */
  lemma {:induction false} MetaNameCreatedMatches(name: string)
    ensures WithEntries(map[], [("name", name)]) == map["name" := name]
    ensures Matches(Element("meta", WithEntries(map[], [("name", name)]), ""), MetaNameSelector(name))
  {
  }

  lemma {:induction false} MetaPropertyCreatedMatches(property: string)
    ensures WithEntries(map[], [("property", property)]) == map["property" := property]
    ensures Matches(Element("meta", WithEntries(map[], [("property", property)]), ""), MetaPropertySelector(property))
  {
  }

  /** `setMetaName`: it never adds a second `meta[name=…]`; afterwards the
      selector finds a `meta` with that name whose content is `content`; and
      of two calls for one name the second wins and adds nothing. */
  lemma SetMetaNameLaws(children: seq<Element>, name: string, c1: string, c2: string)
    ensures var before := CountMatches(children, MetaNameSelector(name));
            CountMatches(AfterSetMetaName(children, name, c1), MetaNameSelector(name))
              == if before == 0 then 1 else before
    ensures var r := AfterSetMetaName(children, name, c1);
            var found := QuerySelector(r, MetaNameSelector(name));
            found.Some? && Matches(r[found.value], MetaNameSelector(name))
            && Carries(r[found.value], SetAttribute("content", c1))
    ensures AfterSetMetaName(AfterSetMetaName(children, name, c1), name, c2) == AfterSetMetaName(children, name, c2)
    ensures |AfterSetMetaName(AfterSetMetaName(children, name, c1), name, c2)| == |AfterSetMetaName(children, name, c1)|
  {
    var sel := MetaNameSelector(name);
    var created := Element("meta", WithEntries(map[], [("name", name)]), "");
    MetaNameCreatedMatches(name);
    UpsertNoDuplicate(children, sel, created, SetAttribute("content", c1));
    UpsertThenFind(children, sel, created, SetAttribute("content", c1));
    UpsertTwice(children, sel, created, SetAttribute("content", c1), SetAttribute("content", c2));
    var r := AfterSetMetaName(children, name, c1);
    if QuerySelector(children, sel).Some? {
      UpsertExisting(r, sel, created, SetAttribute("content", c2), QuerySelector(r, sel).value);
    } else {
      UpsertExisting(r, sel, created, SetAttribute("content", c2), |children|);
      UpsertMissing(children, sel, created, SetAttribute("content", c1));
    }
  }

  /** `setMetaProperty`: the same laws for `meta[property=…]`. */
  lemma SetMetaPropertyLaws(children: seq<Element>, property: string, c1: string, c2: string)
    ensures var before := CountMatches(children, MetaPropertySelector(property));
            CountMatches(AfterSetMetaProperty(children, property, c1), MetaPropertySelector(property))
              == if before == 0 then 1 else before
    ensures var r := AfterSetMetaProperty(children, property, c1);
            var found := QuerySelector(r, MetaPropertySelector(property));
            found.Some? && Matches(r[found.value], MetaPropertySelector(property))
            && Carries(r[found.value], SetAttribute("content", c1))
    ensures AfterSetMetaProperty(AfterSetMetaProperty(children, property, c1), property, c2)
              == AfterSetMetaProperty(children, property, c2)
    ensures |AfterSetMetaProperty(AfterSetMetaProperty(children, property, c1), property, c2)|
              == |AfterSetMetaProperty(children, property, c1)|
  {
    var sel := MetaPropertySelector(property);
    var created := Element("meta", WithEntries(map[], [("property", property)]), "");
    MetaPropertyCreatedMatches(property);
    UpsertNoDuplicate(children, sel, created, SetAttribute("content", c1));
    UpsertThenFind(children, sel, created, SetAttribute("content", c1));
    UpsertTwice(children, sel, created, SetAttribute("content", c1), SetAttribute("content", c2));
    var r := AfterSetMetaProperty(children, property, c1);
    if QuerySelector(children, sel).Some? {
      UpsertExisting(r, sel, created, SetAttribute("content", c2), QuerySelector(r, sel).value);
    } else {
      UpsertExisting(r, sel, created, SetAttribute("content", c2), |children|);
      UpsertMissing(children, sel, created, SetAttribute("content", c1));
    }
  }

  /** `setCanonical`: at most one canonical link is created, the selector then
      finds one whose `href` is the given one, and the last call wins. */
  lemma SetCanonicalLaws(children: seq<Element>, href1: string, href2: string)
    ensures var before := CountMatches(children, CanonicalSelector);
            CountMatches(AfterSetCanonical(children, href1), CanonicalSelector) == if before == 0 then 1 else before
    ensures var r := AfterSetCanonical(children, href1);
            var found := QuerySelector(r, CanonicalSelector);
            found.Some? && Matches(r[found.value], CanonicalSelector)
            && Carries(r[found.value], SetAttribute("href", href1))
    ensures AfterSetCanonical(AfterSetCanonical(children, href1), href2) == AfterSetCanonical(children, href2)
  {
    UpsertNoDuplicate(children, CanonicalSelector, CanonicalLink, SetAttribute("href", href1));
    UpsertThenFind(children, CanonicalSelector, CanonicalLink, SetAttribute("href", href1));
    UpsertTwice(children, CanonicalSelector, CanonicalLink, SetAttribute("href", href1), SetAttribute("href", href2));
  }

  /** `setJsonLd`: at most one script per id is created, the selector then
      finds one whose text is the serialised payload, and the last call wins;
      a script created here also carries the JSON-LD type. */
  lemma SetJsonLdLaws(children: seq<Element>, id: string, s1: string, s2: string)
    ensures var before := CountMatches(children, JsonLdSelector(id));
            CountMatches(AfterSetJsonLd(children, id, s1), JsonLdSelector(id)) == if before == 0 then 1 else before
    ensures var r := AfterSetJsonLd(children, id, s1);
            var found := QuerySelector(r, JsonLdSelector(id));
            found.Some? && Matches(r[found.value], JsonLdSelector(id)) && r[found.value].text == s1
    ensures AfterSetJsonLd(AfterSetJsonLd(children, id, s1), id, s2) == AfterSetJsonLd(children, id, s2)
  {
    var sel := JsonLdSelector(id);
    UpsertNoDuplicate(children, sel, JsonLdScript(id), SetText(s1));
    UpsertThenFind(children, sel, JsonLdScript(id), SetText(s1));
    UpsertTwice(children, sel, JsonLdScript(id), SetText(s1), SetText(s2));
  }

  /** A script `setJsonLd` creates carries the JSON-LD type and the id, and
      the serialised payload as its text. */
  lemma SetJsonLdCreates(children: seq<Element>, id: string, serialized: string)
    requires QuerySelector(children, JsonLdSelector(id)).None?
    ensures var r := AfterSetJsonLd(children, id, serialized);
            && |r| == |children| + 1 && r[..|children|] == children
            && r[|children|].tag == "script" && r[|children|].text == serialized
            && r[|children|].attrs == map["type" := "application/ld+json", "data-seo-id" := id]
  {
  }

  /** The document head, whose children the helpers append to and write. */
  class Head {
    var children: seq<Element>

    constructor (children: seq<Element>)
      ensures this.children == children
    {
      this.children := children;
    }

    /** `upsertMeta`: find the first match or create, fill in and append a
        `meta`; then set its `content`. */
    method UpsertMeta(sel: Selector, attributes: seq<(string, string)>, content: string)
      modifies this
      ensures children == AfterUpsertMeta(old(children), sel, attributes, content)
    {
      var found := QuerySelector(children, sel);
      var index: nat;
      if found.None? {
        var meta := SetAttributes(Element("meta", map[], ""), attributes);
        children := children + [meta];
        index := |children| - 1;
      } else {
        index := found.value;
      }
      children := children[index := Apply(children[index], SetAttribute("content", content))];
    }

    method SetMetaName(name: string, content: string)
      modifies this
      ensures children == AfterSetMetaName(old(children), name, content)
    {
      UpsertMeta(MetaNameSelector(name), [("name", name)], content);
    }

    method SetMetaProperty(property: string, content: string)
      modifies this
      ensures children == AfterSetMetaProperty(old(children), property, content)
    {
      UpsertMeta(MetaPropertySelector(property), [("property", property)], content);
    }

    /** `setCanonical`: find or create `link[rel="canonical"]`, then set its
        `href`. */
    method SetCanonical(href: string)
      modifies this
      ensures children == AfterSetCanonical(old(children), href)
    {
      var found := QuerySelector(children, CanonicalSelector);
      var index: nat;
      if found.None? {
        var link := Apply(Element("link", map[], ""), SetAttribute("rel", "canonical"));
        children := children + [link];
        index := |children| - 1;
      } else {
        index := found.value;
      }
      children := children[index := Apply(children[index], SetAttribute("href", href))];
    }

    /** `setRobots(content)` is `setMetaName("robots", content)`. */
    method SetRobots(content: string)
      modifies this
      ensures children == AfterSetMetaName(old(children), "robots", content)
    {
      SetMetaName("robots", content);
    }

    /** `setJsonLd`: find or create the script for `id`, giving a new one the
        JSON-LD type and the id; then replace its text with `serialized`. */
    method SetJsonLd(id: string, serialized: string)
      modifies this
      ensures children == AfterSetJsonLd(old(children), id, serialized)
    {
      var found := QuerySelector(children, JsonLdSelector(id));
      var index: nat;
      if found.None? {
        var script := Apply(Element("script", map[], ""), SetAttribute("type", "application/ld+json"));
        script := Apply(script, SetAttribute("data-seo-id", id));
        children := children + [script];
        index := |children| - 1;
      } else {
        index := found.value;
      }
      children := children[index := Apply(children[index], SetText(serialized))];
    }
  }
}
