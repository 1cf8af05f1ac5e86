/**
 * The plugin's admin actions over the WordPress store: the batch that
 * assigns each published post its fragment once (`handle_injection`),
 * the reset (`handle_clear_records`), the settings form
 * (`handle_save_message`), the per-post override (`save_meta`), the
 * remaining count shown on the admin page, and the front-end filter that
 * hands a post's stored fragment to the splicer.
 */
module Manager {
  import opened Wrappers
  import opened Text
  import opened Categories
  import Splicer

  /** `posts_per_page` of the batch query. */
  const BatchSize := 100
  const DefaultMessage := "You are reading this {category} story on your own website."
  const DefaultInterval := 10
  /** The word the reset form must receive. */
  const ConfirmWord := "DELETE"

  /** `get_post_meta($id, key, true)` on a text meta: "" when absent. */
  function MetaText(meta: map<int, string>, id: int): string
  {
    if id in meta then meta[id] else ""
  }

  /** The stored override; an absent one reads as "", falsy like 0. */
  function OverrideOf(overrides: map<int, int>, id: int): int
  {
    if id in overrides then overrides[id] else 0
  }

  /** `get_the_category($id)`: the post's own categories, none when unknown. */
  function CategoriesOf(natural: map<int, seq<Category>>, id: int): seq<Category>
  {
    if id in natural then natural[id] else []
  }

  /** No id occurs twice. */
  predicate Distinct(s: seq<int>)
    decreases |s|
  {
    |s| == 0 || (s[|s| - 1] !in s[..|s| - 1] && Distinct(s[..|s| - 1]))
  }

  function Elements(s: seq<int>): set<int>
  {
    set x | x in s
  }

  lemma {:induction false} DistinctCard(s: seq<int>)
    requires Distinct(s)
    ensures |Elements(s)| == |s|
  {
    if |s| > 0 {
      var t := s[..|s| - 1];
      DistinctCard(t);
      assert s == t + [s[|s| - 1]];
      assert Elements(s) == Elements(t) + {s[|s| - 1]};
    }
  }

  /** Lines 101-111: the published posts not yet recorded as done. */
  function Remaining(published: set<int>, done: seq<int>): (n: nat)
    ensures n <= |published|
    ensures done == [] ==> n == |published|
  {
    |published - Elements(done)|
  }

  /**
   * A batch of distinct published posts not yet done lowers the remaining
   * count by its size.
   */
  lemma RemainingAfterBatch(published: set<int>, done: seq<int>, batch: seq<int>)
    requires Distinct(batch)
    requires forall id :: id in batch ==> id in published && id !in done
    ensures Remaining(published, done + batch) == Remaining(published, done) - |batch|
  {
    var open, b := published - Elements(done), Elements(batch);
    DistinctCard(batch);
    assert Elements(done + batch) == Elements(done) + b;
    assert published - Elements(done + batch) == open - b;
    forall x | x in b ensures x in open {
      assert x in batch;
    }
    SubsetCard(open, b);
  }

  /** The size of the batch query of lines 199-206 when `r` posts remain. */
  function BatchFor(r: nat): (n: nat)
    ensures n <= r && n <= BatchSize
    ensures r > 0 ==> n > 0
  {
    if r < BatchSize then r else BatchSize
  }

  /** The remaining count after `k` runs of the batch action, starting from `r`. */
  function AfterRuns(r: nat, k: nat): nat
  {
    if k == 0 then r else AfterRuns(r - BatchFor(r), k - 1)
  }

  /**
   * Repeated runs reach zero: exactly ceil(r / 100) runs are needed, and
   * every earlier run leaves some post remaining.
   */
  lemma {:induction false} RunsReachZero(r: nat, k: nat)
    ensures AfterRuns(r, k) == 0 <==> k >= (r + BatchSize - 1) / BatchSize
  {
    if k > 0 {
      RunsReachZero(r - BatchFor(r), k - 1);
    }
  }

  lemma SubsetCard(a: set<int>, b: set<int>)
    requires b <= a
    ensures |a - b| == |a| - |b|
  {
    assert a == (a - b) + b;
  }

  /** The concatenation of two distinct, disjoint lists is distinct. */
  lemma {:induction false} AppendDistinct(done: seq<int>, batch: seq<int>)
    requires Distinct(done) && Distinct(batch)
    requires forall id :: id in batch ==> id !in done
    ensures Distinct(done + batch)
  {
    if |batch| == 0 {
      assert done + batch == done;
    } else {
      var front, last := batch[..|batch| - 1], batch[|batch| - 1];
      assert batch == front + [last];
      AppendDistinct(done, front);
      var s := done + batch;
      assert s[..|s| - 1] == done + front && s[|s| - 1] == last;
      assert last !in done && last !in front;
    }
  }

  /** What `handle_injection` reads and does not write. */
  datatype Lookups = Lookups(
    overrides: map<int, int>,
    natural: map<int, seq<Category>>,
    table: map<int, Category>)

  /** The category a post's fragment would link to (lines 221-236). */
  function ResolveFor(id: int, lookups: Lookups): Option<Category>
  {
    Resolve(OverrideOf(lookups.overrides, id), CategoriesOf(lookups.natural, id), lookups.table)
  }

  /** Lines 216-248 for one post: keep a truthy fragment, else write one if a category resolves. */
  function Step(fragments: map<int, string>, id: int, lookups: Lookups, template: string, env: Env): map<int, string>
  {
    if Truthy(MetaText(fragments, id)) then fragments
    else match ResolveFor(id, lookups)
      case None => fragments
      case Some(cat) => fragments[id := env.unslash(Render(template, cat, env))]
  }

  /** The fragment store after the posts of `batch` are visited in order. */
  function Assigned(fragments: map<int, string>, batch: seq<int>, lookups: Lookups, template: string, env: Env): map<int, string>
    decreases |batch|
  {
    if |batch| == 0 then fragments
    else Step(Assigned(fragments, batch[..|batch| - 1], lookups, template, env), batch[|batch| - 1], lookups, template, env)
  }

  lemma AssignedNext(fragments: map<int, string>, batch: seq<int>, i: nat, lookups: Lookups, template: string, env: Env)
    requires i < |batch|
    ensures Assigned(fragments, batch[..i + 1], lookups, template, env)
         == Step(Assigned(fragments, batch[..i], lookups, template, env), batch[i], lookups, template, env)
  {
    assert batch[..i + 1][..i] == batch[..i];
  }

  /**
   * The `foreach` of `handle_injection` (lines 215-249): every post of the
   * batch is appended to `done`, whichever branch it takes, and a fragment
   * is written for it as `Step` says.
   */
  method RunBatch(fragments: map<int, string>, done: seq<int>, batch: seq<int>, lookups: Lookups, template: string, env: Env)
    returns (meta: map<int, string>, doneAfter: seq<int>)
    ensures meta == Assigned(fragments, batch, lookups, template, env)
    ensures doneAfter == done + batch
  {
    meta, doneAfter := fragments, done;
    var i := 0;
    while i < |batch|
      invariant 0 <= i <= |batch|
      invariant doneAfter == done + batch[..i]
      invariant meta == Assigned(fragments, batch[..i], lookups, template, env)
    {
      var postId := batch[i];
      ghost var before := meta;
      if !Truthy(MetaText(meta, postId)) {
        var selected := OverrideOf(lookups.overrides, postId);
        var categories := CategoriesOf(lookups.natural, postId);
        var cat := Resolve(selected, categories, lookups.table);
        if cat.Some? {
          meta := meta[postId := env.unslash(Render(template, cat.value, env))];
        }
      }
      assert meta == Step(before, postId, lookups, template, env);
      AssignedNext(fragments, batch, i, lookups, template, env);
      doneAfter := doneAfter + [postId];
      i := i + 1;
    }
    assert batch[..i] == batch;
  }

  /** Entry `id` is the same in both stores, present or absent alike. */
  predicate SameAt(a: map<int, string>, b: map<int, string>, id: int)
  {
    (id in a <==> id in b) && (id in a ==> a[id] == b[id])
  }

  /** The fragment of a post outside the batch does not change. */
  lemma {:induction false} AssignedOutside(fragments: map<int, string>, batch: seq<int>, lookups: Lookups, template: string, env: Env, id: int)
    requires id !in batch
    ensures SameAt(Assigned(fragments, batch, lookups, template, env), fragments, id)
    decreases |batch|
  {
    if |batch| > 0 {
      var front := batch[..|batch| - 1];
      assert id !in front by {
        assert forall x :: x in front ==> x in batch;
      }
      AssignedOutside(fragments, front, lookups, template, env, id);
    }
  }

  /**
   * The fragment of a post in the batch: a truthy one is kept; otherwise a
   * fragment is written exactly when a category resolves, and it is the
   * template rendered with that category.
   */
  lemma {:induction false} AssignedInside(fragments: map<int, string>, batch: seq<int>, lookups: Lookups, template: string, env: Env, id: int)
    requires Distinct(batch) && id in batch
    ensures Truthy(MetaText(fragments, id)) ==> SameAt(Assigned(fragments, batch, lookups, template, env), fragments, id)
    ensures ResolveFor(id, lookups).None? ==> SameAt(Assigned(fragments, batch, lookups, template, env), fragments, id)
    ensures !Truthy(MetaText(fragments, id)) && ResolveFor(id, lookups).Some? ==>
      var after := Assigned(fragments, batch, lookups, template, env);
      id in after && after[id] == env.unslash(Render(template, ResolveFor(id, lookups).value, env))
    decreases |batch|
  {
    var front, last := batch[..|batch| - 1], batch[|batch| - 1];
    if last == id {
      AssignedOutside(fragments, front, lookups, template, env, id);
    } else {
      assert id in front by {
        assert batch == front + [last];
      }
      AssignedInside(fragments, front, lookups, template, env, id);
    }
  }

  /** The plugin together with the parts of the WordPress store it reads and writes. */
  class ParagraphInjectionManager {
    /** Post meta `_pim_injection_html`, by post id. */
    var fragments: map<int, string>
    /** Post meta `_pim_selected_category`, by post id. */
    var overrides: map<int, int>
    /** Each post's own categories, in the store's order. */
    var natural: map<int, seq<Category>>
    /** The categories `get_category` can find, by term id. */
    var table: map<int, Category>
    /** Ids of all published posts. */
    var published: set<int>
    /** Option `pim_injected_posts`; None once deleted. */
    var log: Option<seq<int>>
    /** Option `pim_custom_message`. */
    var message: Option<string>
    /** Option `pim_injection_interval`. */
    var interval: Option<int>

    ghost predicate Valid()
      reads this`interval, this`log
    {
      (interval.Some? ==> interval.value >= 1) && Distinct(Done())
    }

    /** The done list as read back: empty when the option is absent. */
    function Done(): seq<int>
      reads this`log
    {
      if log.Some? then log.value else []
    }

    function Message(): string
      reads this`message
    {
      if message.Some? then message.value else DefaultMessage
    }

    /** The interval the splicer reads; the clamp on save keeps it at least 1. */
    function Interval(): (n: int)
      reads this`interval, this`log
      requires Valid()
      ensures n >= 1
    {
      if interval.Some? then interval.value else DefaultInterval
    }

    function RemainingCount(): nat
      reads this`published, this`log
    {
      Remaining(published, Done())
    }

    function CurrentLookups(): Lookups
      reads this`overrides, this`natural, this`table
    {
      Lookups(overrides, natural, table)
    }

    /** A site with the given posts and categories and nothing of the plugin stored yet. */
    constructor (published: set<int>, natural: map<int, seq<Category>>, table: map<int, Category>)
      ensures Valid()
      ensures this.published == published && this.natural == natural && this.table == table
      ensures fragments == map[] && overrides == map[]
      ensures log == None && message == None && interval == None
      ensures RemainingCount() == |published|
    {
      this.published := published;
      this.natural := natural;
      this.table := table;
      fragments := map[];
      overrides := map[];
      log := None;
      message := None;
      interval := None;
    }

    /** `save_meta` (lines 79-81): the posted selection, already `intval`-ed, is stored when present. */
    method SaveMeta(postId: int, selected: Option<int>)
      requires Valid()
      modifies this`overrides
      ensures Valid()
      ensures selected.Some? ==> overrides == old(overrides)[postId := selected.value]
      ensures selected.None? ==> overrides == old(overrides)
    {
      if selected.Some? {
        overrides := overrides[postId := selected.value];
      }
    }

    /**
     * `handle_save_message` (lines 175-183): the message is stored after
     * sanitising with `kses`; the interval is stored clamped to at least 1.
     * `postedMessage` is the form field exactly as WordPress delivers it,
     * slashed; `update_option` stores it without unslashing.
     */
    method HandleSaveMessage(postedMessage: Option<string>, postedInterval: Option<int>, kses: string -> string)
      requires Valid()
      modifies this`message, this`interval
      ensures Valid()
      ensures postedMessage.Some? ==> message == Some(kses(postedMessage.value))
      ensures postedMessage.None? ==> message == old(message)
      ensures postedInterval.Some? ==>
        interval == Some(if postedInterval.value >= 1 then postedInterval.value else 1)
      ensures postedInterval.None? ==> interval == old(interval)
    {
      if postedMessage.Some? {
        message := Some(kses(postedMessage.value));
      }
      if postedInterval.Some? {
        var v := postedInterval.value;
        interval := Some(if 1 >= v then 1 else v);
      }
    }

    /**
     * `handle_injection` (lines 196-251). `batch` is what the query of
     * line 206 returns: at most 100 distinct published posts, none done.
     */
    method HandleInjection(batch: seq<int>, env: Env)
      requires Valid()
      requires |batch| == BatchFor(RemainingCount()) && Distinct(batch)
      requires forall id :: id in batch ==> id in published && id !in Done()
      modifies this`fragments, this`log
      ensures Valid()
      ensures |batch| == 0 ==> log == old(log)
      ensures |batch| > 0 ==> log == Some(old(Done()) + batch)
      ensures fragments == Assigned(old(fragments), batch, old(CurrentLookups()), old(Message()), env)
      ensures RemainingCount() == old(RemainingCount()) - |batch|
      ensures RemainingCount() == AfterRuns(old(RemainingCount()), 1)
    {
      var done := Done();
      if |batch| == 0 {
        return;
      }
      var template := Message();
      AppendDistinct(done, batch);
      RemainingAfterBatch(published, done, batch);
      var meta;
      meta, done := RunBatch(fragments, done, batch, CurrentLookups(), template, env);
      fragments := meta;
      log := Some(done);
    }

    /**
     * `handle_clear_records` (lines 263-275): only the exact word DELETE
     * clears; then every stored fragment and the done record are deleted.
     */
    method HandleClearRecords(confirm: string) returns (cleared: bool)
      requires Valid()
      modifies this`fragments, this`log
      ensures Valid()
      ensures cleared <==> confirm == ConfirmWord
      ensures cleared ==> fragments == map[] && log == None && Done() == []
      ensures cleared ==> RemainingCount() == |published|
      ensures !cleared ==> fragments == old(fragments) && log == old(log)
    {
      if !Truthy(confirm) || confirm != ConfirmWord {
        return false;
      }
      fragments := map[];
      log := None;
      cleared := true;
    }

    /** `inject_message_into_content` (lines 282-309) as the front end calls it. */
    method InjectMessageIntoContent(singular: bool, postId: int, content: string) returns (out: string)
      requires Valid()
      ensures !singular ==> out == content
      ensures singular ==> out == Splicer.Injected(content, MetaText(fragments, postId), Interval())
    {
      if !singular {
        return content;
      }
      var fragment := MetaText(fragments, postId);
      out := Splicer.InjectIntoContent(content, fragment, Interval());
    }
  }
}
