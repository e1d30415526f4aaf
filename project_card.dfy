/** The link a project card renders: where it points and whether it opens a new browsing context. */
module ProjectCard {
  import opened Wrappers

  /** The anchor attributes; `None` stands for an attribute left off. */
  datatype LinkAttrs = LinkAttrs(href: string, target: Option<string>, rel: Option<string>)

  /** JavaScript truthiness of an optional string prop: present and non-empty. */
  predicate Truthy(href: Option<string>) {
    href.Some? && href.value != ""
  }

  /** `href || "#"`, with `target="_blank"` and `rel="noreferrer"` only for a truthy `href`. */
  function CardLink(href: Option<string>): (r: LinkAttrs)
    ensures r.href != ""
    ensures r.target.Some? <==> r.rel.Some?
  {
    if Truthy(href) then LinkAttrs(href.value, Some("_blank"), Some("noreferrer"))
    else LinkAttrs("#", None, None)
  }

  /**
   * A card opens a new context exactly when its project has a non-empty
   * link, and then at exactly that address; otherwise it is a placeholder
   * pointing at "#".
   */
  lemma CardLinkChoice(href: Option<string>)
    ensures CardLink(href).target == Some("_blank") <==> Truthy(href)
    ensures CardLink(href).rel == Some("noreferrer") <==> Truthy(href)
    ensures Truthy(href) ==> CardLink(href).href == href.value
    ensures !Truthy(href) ==> CardLink(href) == LinkAttrs("#", None, None)
  {
  }

  /** An absent link and an empty link render the same placeholder. */
  lemma EmptyLinkIsPlaceholder()
    ensures CardLink(None) == CardLink(Some("")) == LinkAttrs("#", None, None)
  {
  }
}
