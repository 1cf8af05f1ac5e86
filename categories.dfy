/**
 * Category resolution and template rendering inside `handle_injection`:
 * which category a post's fragment links to, and how the message
 * template is expanded with that category's link.
 */
module Categories {
  import opened Wrappers
  import opened Text

  /** A category term: its id and its display name. */
  datatype Category = Category(termId: int, name: string)

  /**
   * WordPress helpers the plugin calls but does not define: `esc_url`,
   * `esc_html`, `esc_attr`, `get_category_link`, and the `wp_unslash` that
   * `update_post_meta` applies to every value it stores. Their internals
   * are not modelled; any functions may stand in for them.
   */
  datatype Env = Env(
    escUrl: string -> string,
    escHtml: string -> string,
    escAttr: string -> string,
    link: int -> string,
    unslash: string -> string)

  /** The placeholder the message template may contain. */
  const Placeholder := "{category}"

  /**
   * Lines 221-236. `selected` is the stored override (0 when none was
   * chosen, as `intval` stores it, and 0 is falsy); `natural` the post's
   * own categories; `table` what `get_category` can find.
   */
  function Resolve(selected: int, natural: seq<Category>, table: map<int, Category>): (r: Option<Category>)
    // an override, when set, is the only candidate: a failed lookup skips the post
    ensures selected != 0 ==> (r.Some? <==> selected in table)
    ensures selected != 0 && r.Some? ==> r.value == table[selected]
    // without an override the post's first own category is used, if it has one
    ensures selected == 0 ==> (r.Some? <==> natural != [])
    ensures selected == 0 && r.Some? ==> r.value == natural[0]
  {
    if selected != 0 then
      if selected in table then Some(table[selected]) else None
    else if natural != [] then Some(natural[0])
    else None
  }

  /** An override that resolves wins over the post's own categories. */
  lemma OverrideWins(selected: int, natural: seq<Category>, table: map<int, Category>)
    requires selected != 0 && selected in table && natural != []
    ensures Resolve(selected, natural, table) == Some(table[selected])
    ensures table[selected] != natural[0] ==> Resolve(selected, natural, table) != Some(natural[0])
  {
  }

  /** An override that does not resolve never falls back to the post's own categories. */
  lemma OverrideNoFallback(selected: int, natural: seq<Category>, table: map<int, Category>)
    requires selected != 0 && selected !in table
    ensures Resolve(selected, natural, table) == None
  {
  }

  /** The anchor that replaces each placeholder (lines 238-243). */
  function Anchor(cat: Category, env: Env): string
  {
    var link := env.escUrl(env.link(cat.termId));
    var name := env.escHtml(cat.name);
    "<a href=\"" + link + "\" title=\"" + env.escAttr(name) + "\">" + name + "</a>"
  }

  /** Lines 241-245: `str_replace` of every placeholder with the anchor. */
  function Render(template: string, cat: Category, env: Env): string
  {
    ReplaceAll(template, Placeholder, Anchor(cat, env))
  }

  lemma PlaceholderUnbordered()
    ensures Unbordered(Placeholder)
  {
    assert Placeholder[1..] == "category}";
  }

  /**
   * A template made of placeholder-free text pieces separated by
   * placeholders renders as the same pieces separated by anchors: every
   * placeholder is replaced and all other text passes through unchanged.
   */
  lemma RenderJoin(parts: seq<string>, cat: Category, env: Env)
    requires forall i :: 0 <= i < |parts| ==> !Occurs(parts[i], Placeholder)
    ensures Render(Join(parts, Placeholder), cat, env) == Join(parts, Anchor(cat, env))
  {
    PlaceholderUnbordered();
    ReplaceJoin(parts, Placeholder, Anchor(cat, env));
  }

  /** A template without the placeholder renders as itself. */
  lemma RenderFree(template: string, cat: Category, env: Env)
    requires !Occurs(template, Placeholder)
    ensures Render(template, cat, env) == template
  {
    ReplaceFree(template, Placeholder, Anchor(cat, env));
  }

  /** Every template can be cut at its placeholders into placeholder-free pieces. */
  lemma SplitAtPlaceholder(template: string)
    ensures exists parts ::
              && (forall i :: 0 <= i < |parts| ==> !Occurs(parts[i], Placeholder))
              && Join(parts, Placeholder) == template
  {
    SplitJoin(template, Placeholder);
    SplitFree(template, Placeholder);
    var parts := Split(template, Placeholder);
    assert Join(parts, Placeholder) == template;
  }

  /**
   * Any template renders as its placeholder-free pieces joined by the
   * anchor: every placeholder is replaced, all other text passes through.
   */
  lemma RenderAny(template: string, cat: Category, env: Env)
    ensures Render(template, cat, env) == Join(Split(template, Placeholder), Anchor(cat, env))
    ensures forall i :: 0 <= i < |Split(template, Placeholder)| ==> !Occurs(Split(template, Placeholder)[i], Placeholder)
  {
    SplitFree(template, Placeholder);
    SplitJoin(template, Placeholder);
    RenderJoin(Split(template, Placeholder), cat, env);
  }
}
