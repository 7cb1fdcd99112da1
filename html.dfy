/**
 * The article-link filter of the crawler: `WikiParser.handle_starttag` and the
 * accumulation of accepted `href` values into the parser's `links` set.
 *
 * The HTML tokenizer is library code and is not part of this model: a page is
 * given to the parser as the sequence of start tags the tokenizer reports,
 * with lower-cased tag and attribute names. Data and end tags have no handler
 * in the parser and are therefore left out of the token stream.
 */
module Html {
  import opened Wrappers

  /** One attribute of a start tag; an attribute written without `=value` has no value. */
  datatype Attr = Attr(name: string, value: Option<string>)

  datatype StartTag = StartTag(tag: string, attrs: seq<Attr>)

  /** An internal article reference: it starts with "/wiki" and has no namespace separator. */
  predicate IsArticleHref(v: string)
  {
    "/wiki" <= v && ':' !in v
  }

  /** An `href` attribute without a value: reading it as a string raises. */
  predicate IsValuelessHref(a: Attr)
  {
    a.name == "href" && a.value.None?
  }

  predicate IsArticleAttr(a: Attr)
  {
    a.name == "href" && a.value.Some? && IsArticleHref(a.value.value)
  }

  /** The article references carried by a list of attributes. */
  function HrefLinks(attrs: seq<Attr>): (r: set<string>)
    ensures forall l :: l in r ==> IsArticleHref(l)
  {
    set a | a in attrs && IsArticleAttr(a) :: a.value.value
  }

  /** What one start tag contributes when it is handled without error. */
  function TagLinks(t: StartTag): (r: set<string>)
  {
    if t.tag == "a" then HrefLinks(t.attrs) else {}
  }

  /** Handling this start tag raises: an anchor with a valueless `href`. */
  predicate Raises(t: StartTag)
  {
    t.tag == "a" && exists a :: a in t.attrs && IsValuelessHref(a)
  }

  /**
   * The links a fresh parser holds after being fed `tags`, or `Raised` when
   * handling one of the tags raises.
   */
  function Collect(tags: seq<StartTag>): (r: Result<set<string>>)
  {
    if tags == [] then Ok({})
    else
      var prev := Collect(tags[..|tags| - 1]);
      var last := tags[|tags| - 1];
      if prev.Raised? || Raises(last) then Raised
      else Ok(prev.value + TagLinks(last))
  }

  /**
   * Feeding a page raises exactly when one of its tags raises; otherwise the
   * parser ends up with exactly the article references of the page's anchors.
   */
  lemma {:induction false} CollectMeaning(tags: seq<StartTag>)
    ensures Collect(tags).Ok? <==> forall i :: 0 <= i < |tags| ==> !Raises(tags[i])
    ensures Collect(tags).Ok? ==>
              forall l :: l in Collect(tags).value <==> exists i :: 0 <= i < |tags| && l in TagLinks(tags[i])
    ensures Collect(tags).Ok? ==> forall l :: l in Collect(tags).value ==> IsArticleHref(l)
  {
    if tags != [] {
      var init := tags[..|tags| - 1];
      CollectMeaning(init);
      assert forall i :: 0 <= i < |init| ==> init[i] == tags[i];
    }
  }

  class WikiParser {
    var links: set<string>

    constructor ()
      ensures links == {}
    {
      links := {};
    }

    /**
     * Handles one start tag. `ok` is false when the handler raises (a valueless
     * `href` on an anchor); the links added before that point stay added.
     */
    method HandleStartTag(t: StartTag) returns (ok: bool)
      modifies this
      ensures ok <==> !Raises(t)
      ensures ok ==> links == old(links) + TagLinks(t)
      ensures old(links) <= links
      ensures forall l :: l in links ==> l in old(links) || IsArticleHref(l)
    {
      ok := true;
      if t.tag == "a" {
        var i := 0;
        while i < |t.attrs|
          invariant 0 <= i <= |t.attrs|
          invariant links == old(links) + HrefLinks(t.attrs[..i])
          invariant forall j :: 0 <= j < i ==> !IsValuelessHref(t.attrs[j])
        {
          var a := t.attrs[i];
          assert t.attrs[..i + 1] == t.attrs[..i] + [a];
          if a.name == "href" {
            match a.value
            case None =>
              assert a in t.attrs && IsValuelessHref(a);
              ok := false;
              return;
            case Some(v) =>
              if "/wiki" <= v && ':' !in v {
                links := links + {v};
              }
          }
          i := i + 1;
        }
        assert t.attrs[..i] == t.attrs;
      }
    }

    /** Feeds the tokenized page: handles each start tag in order, stopping at the first that raises. */
    method Feed(tags: seq<StartTag>) returns (ok: bool)
      modifies this
      ensures ok <==> Collect(tags).Ok?
      ensures ok ==> links == old(links) + Collect(tags).value
      ensures old(links) <= links
      ensures forall l :: l in links ==> l in old(links) || IsArticleHref(l)
    {
      var i := 0;
      while i < |tags|
        invariant 0 <= i <= |tags|
        invariant Collect(tags[..i]).Ok?
        invariant links == old(links) + Collect(tags[..i]).value
        invariant forall l :: l in links ==> l in old(links) || IsArticleHref(l)
      {
        assert tags[..i + 1][..i] == tags[..i];
        ok := HandleStartTag(tags[i]);
        if !ok {
          CollectMeaning(tags[..i + 1]);
          CollectMeaning(tags);
          assert tags[..i + 1][i] == tags[i];
          return;
        }
        i := i + 1;
      }
      assert tags[..i] == tags;
      ok := true;
    }
  }

  lemma ArticleLinkIsKept()
    ensures Collect([StartTag("a", [Attr("href", Some("/wiki/Python"))])]) == Ok({"/wiki/Python"})
  {
    var t := StartTag("a", [Attr("href", Some("/wiki/Python"))]);
    assert [t][..0] == [] && Collect([]) == Ok({});
    assert IsArticleAttr(t.attrs[0]);
    assert !Raises(t);
    assert Collect([t]) == Ok({} + TagLinks(t));
    assert {} + TagLinks(t) == TagLinks(t);
    assert HrefLinks(t.attrs) == {"/wiki/Python"};
  }

  lemma NamespacedLinkIsDropped()
    ensures Collect([StartTag("a", [Attr("href", Some("/wiki/Python:History"))])]) == Ok({})
  {
    var t := StartTag("a", [Attr("href", Some("/wiki/Python:History"))]);
    assert [t][..0] == [] && Collect([]) == Ok({});
    assert !Raises(t);
    assert Collect([t]) == Ok({} + TagLinks(t));
    assert {} + TagLinks(t) == TagLinks(t);
    assert "/wiki/Python:History"[12] == ':';
    assert HrefLinks(t.attrs) == {};
  }

  lemma ExternalLinkIsDropped()
    ensures Collect([StartTag("a", [Attr("href", Some("https://python.org"))])]) == Ok({})
  {
    var t := StartTag("a", [Attr("href", Some("https://python.org"))]);
    assert [t][..0] == [] && Collect([]) == Ok({});
    assert !Raises(t);
    assert Collect([t]) == Ok({} + TagLinks(t));
    assert {} + TagLinks(t) == TagLinks(t);
    assert "https://python.org"[0] == 'h' != "/wiki"[0];
    assert HrefLinks(t.attrs) == {};
  }
}
