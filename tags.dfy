/**
 * The tag loop of `PostsController.CreatePost`: every raw entry is trimmed;
 * null or blank entries are skipped; a tag already stored under exactly
 * that name is reused; otherwise a new tag is created. The lookup sees only
 * the tags stored before the request, so a new name repeated within one
 * request creates one tag per occurrence.
 */
module Tags {
  import opened Wrappers
  import opened Text
  import opened Models

  /** `raw?.Trim()`, or `None` when that is null or white space only. */
  function TagName(raw: Option<string>): (r: Option<string>)
    ensures r.Some? ==> raw.Some? && r.value == Trim(raw.value) && r.value != []
    ensures r.None? <==> IsNullOrWhiteSpace(raw)
  {
    if raw.None? then None
    else
      var name := Trim(raw.value);
      TrimEmptyIffAllWhiteSpace(raw.value);
      TrimmedBlankIffEmpty(raw.value);
      if IsNullOrWhiteSpace(Some(name)) then None else Some(name)
  }

  /** `Tags.FirstOrDefaultAsync(t => t.Name == name)` over the stored tags. */
  function FindTagByName(stored: seq<Tag>, name: string): (r: Option<Tag>)
    ensures r.Some? ==> r.value in stored && r.value.name == name
    ensures r.None? <==> forall t :: t in stored ==> t.name != name
  {
    if stored == [] then None
    else if stored[0].name == name then Some(stored[0])
    else FindTagByName(stored[1..], name)
  }

  /** The tags linked to the post, and the new tags to insert, in order. */
  datatype Reconciled = Reconciled(attached: seq<Tag>, created: seq<Tag>)

  /** One turn of the loop: what the entry `raw` adds to `prior`. */
  function ReconcileStep(stored: seq<Tag>, prior: Reconciled, raw: Option<string>, firstId: int): Reconciled {
    match TagName(raw)
    case None => prior
    case Some(name) =>
      match FindTagByName(stored, name)
      case Some(existing) => Reconciled(prior.attached + [existing], prior.created)
      case None =>
        var newTag := Tag(firstId + |prior.created|, name);
        Reconciled(prior.attached + [newTag], prior.created + [newTag])
  }

  /**
   * The outcome of the loop over `raws` against the stored tags; the tags it
   * creates receive the identities `firstId`, `firstId + 1`, ... in order.
   */
  function Reconcile(stored: seq<Tag>, raws: seq<Option<string>>, firstId: int): Reconciled
    decreases |raws|
  {
    if raws == [] then Reconciled([], [])
    else ReconcileStep(stored, Reconcile(stored, raws[..|raws| - 1], firstId), raws[|raws| - 1], firstId)
  }

  /** The body of the loop: handles the entry `raw`. */
  method ReconcileOne(stored: seq<Tag>, attached: seq<Tag>, created: seq<Tag>, raw: Option<string>, firstId: int)
    returns (attached': seq<Tag>, created': seq<Tag>)
    ensures Reconciled(attached', created') == ReconcileStep(stored, Reconciled(attached, created), raw, firstId)
  {
    attached', created' := attached, created;
    var name := TagName(raw);
    if name.Some? {
      var existing := FindTagByName(stored, name.value);
      if existing.Some? {
        attached' := attached' + [existing.value];
      } else {
        var newTag := Tag(firstId + |created'|, name.value);
        created' := created' + [newTag];
        attached' := attached' + [newTag];
      }
    }
  }

  /** The loop itself: one pass over the raw entries. */
  method ReconcileTags(stored: seq<Tag>, raws: seq<Option<string>>, firstId: int)
    returns (attached: seq<Tag>, created: seq<Tag>)
    ensures Reconciled(attached, created) == Reconcile(stored, raws, firstId)
  {
    attached, created := [], [];
    var i := 0;
    while i < |raws|
      invariant 0 <= i <= |raws|
      invariant Reconciled(attached, created) == Reconcile(stored, raws[..i], firstId)
    {
      assert raws[..i + 1] == raws[..i] + [raws[i]];
      ReconcileSnoc(stored, raws[..i], raws[i], firstId);
      attached, created := ReconcileOne(stored, attached, created, raws[i], firstId);
      i := i + 1;
    }
    assert raws[..|raws|] == raws;
  }

  // ---- Reference definitions ----

  /** The trimmed names of the non-blank entries, in input order. */
  function Names(raws: seq<Option<string>>): seq<string>
    decreases |raws|
  {
    if raws == [] then []
    else
      Names(raws[..|raws| - 1])
      + match TagName(raws[|raws| - 1]) case None => [] case Some(name) => [name]
  }

  /** The names, in order and with repeats, that no stored tag carries. */
  function Unstored(stored: seq<Tag>, names: seq<string>): seq<string>
    decreases |names|
  {
    if names == [] then []
    else
      var last := names[|names| - 1];
      Unstored(stored, names[..|names| - 1])
      + if FindTagByName(stored, last).None? then [last] else []
  }

  /**
   * One tag is attached per non-blank entry, named by the trimmed entry, in
   * input order; where a stored tag has exactly that name it is the one
   * attached.
   */
  lemma {:induction false} ReconcileAttached(stored: seq<Tag>, raws: seq<Option<string>>, firstId: int)
    ensures var r := Reconcile(stored, raws, firstId);
      var names := Names(raws);
      && |r.attached| == |names|
      && (forall k :: 0 <= k < |names| ==> r.attached[k].name == names[k])
      && (forall k :: 0 <= k < |names| && FindTagByName(stored, names[k]).Some? ==>
            r.attached[k] == FindTagByName(stored, names[k]).value)
  {
    if raws != [] {
      var init := raws[..|raws| - 1];
      ReconcileAttached(stored, init, firstId);
      var prior := Reconcile(stored, init, firstId);
      var r := Reconcile(stored, raws, firstId);
      var names := Names(raws);
      var priorNames := Names(init);
      match TagName(raws[|raws| - 1])
      case None =>
        assert r == prior && names == priorNames;
      case Some(name) =>
        assert names == priorNames + [name];
        forall k | 0 <= k < |priorNames| ensures r.attached[k] == prior.attached[k] && names[k] == priorNames[k] {
        }
    }
  }

  /**
   * The created tags are one per entry whose name no stored tag carries
   * (repeats included), in order, numbered consecutively from `firstId`.
   */
  lemma {:induction false} ReconcileCreated(stored: seq<Tag>, raws: seq<Option<string>>, firstId: int)
    ensures var r := Reconcile(stored, raws, firstId);
      var unstored := Unstored(stored, Names(raws));
      && |r.created| == |unstored|
      && (forall j :: 0 <= j < |r.created| ==> r.created[j] == Tag(firstId + j, unstored[j]))
  {
    if raws != [] {
      var init := raws[..|raws| - 1];
      ReconcileCreated(stored, init, firstId);
      var names := Names(raws);
      var priorNames := Names(init);
      match TagName(raws[|raws| - 1])
      case None =>
        assert names == priorNames;
      case Some(name) =>
        assert names == priorNames + [name];
        assert names[..|names| - 1] == priorNames;
    }
  }

  /** One tag is attached per non-blank entry and one created per unstored name. */
  lemma {:induction false} ReconcileLengths(stored: seq<Tag>, raws: seq<Option<string>>, firstId: int)
    ensures var r := Reconcile(stored, raws, firstId);
      |r.attached| == |Names(raws)| && |r.created| == |Unstored(stored, Names(raws))|
  {
    if raws != [] {
      var init := raws[..|raws| - 1];
      ReconcileLengths(stored, init, firstId);
      match TagName(raws[|raws| - 1])
      case None =>
        assert Names(raws) == Names(init);
      case Some(name) =>
        assert Names(raws) == Names(init) + [name];
        assert Names(raws)[..|Names(raws)| - 1] == Names(init);
    }
  }

  /**
   * The tag attached for a name no stored tag carries is the one created for
   * that entry: the next created tag after those of the earlier unstored
   * names.
   */
  lemma {:induction false} ReconcileAttachedCreated(stored: seq<Tag>, raws: seq<Option<string>>, firstId: int)
    ensures var r := Reconcile(stored, raws, firstId);
      var names := Names(raws);
      forall k :: 0 <= k < |names| && FindTagByName(stored, names[k]).None? ==>
        && |Unstored(stored, names[..k])| < |r.created| && |r.attached| == |names|
        && r.attached[k] == r.created[|Unstored(stored, names[..k])|]
        && r.attached[k] in r.created
  {
    if raws != [] {
      var init := raws[..|raws| - 1];
      ReconcileAttachedCreated(stored, init, firstId);
      ReconcileLengths(stored, init, firstId);
      ReconcileLengths(stored, raws, firstId);
      var prior := Reconcile(stored, init, firstId);
      var r := Reconcile(stored, raws, firstId);
      var names := Names(raws);
      var priorNames := Names(init);
      match TagName(raws[|raws| - 1])
      case None =>
        assert r == prior && names == priorNames;
      case Some(name) =>
        assert names == priorNames + [name];
        assert |r.created| >= |prior.created|;
        forall k | 0 <= k < |priorNames| && FindTagByName(stored, names[k]).None?
          ensures |Unstored(stored, names[..k])| < |r.created|
          ensures r.attached[k] == r.created[|Unstored(stored, names[..k])|]
        {
          assert names[..k] == priorNames[..k];
          assert r.attached[k] == prior.attached[k];
        }
        var k := |priorNames|;
        if FindTagByName(stored, name).None? {
          assert names[..k] == priorNames;
          assert r.created == prior.created + [r.attached[k]];
        }
    }
  }

  /** Every attached tag is a stored tag or one of the created ones. */
  lemma AttachedAreStoredOrCreated(stored: seq<Tag>, raws: seq<Option<string>>, firstId: int)
    ensures var r := Reconcile(stored, raws, firstId);
      forall t :: t in r.attached ==> t in stored || t in r.created
  {
    var r := Reconcile(stored, raws, firstId);
    ReconcileAttached(stored, raws, firstId);
    ReconcileAttachedCreated(stored, raws, firstId);
    forall t | t in r.attached ensures t in stored || t in r.created {
      var k :| 0 <= k < |r.attached| && r.attached[k] == t;
    }
  }

  /** The created tags carry consecutive identities starting at `firstId`. */
  lemma CreatedIdentities(stored: seq<Tag>, raws: seq<Option<string>>, firstId: int)
    ensures var r := Reconcile(stored, raws, firstId);
      forall j :: 0 <= j < |r.created| ==> r.created[j].id == firstId + j
  {
    ReconcileCreated(stored, raws, firstId);
  }

  /** An entry whose trimmed name is stored links that stored tag and adds no row. */
  lemma StoredNameReused(stored: seq<Tag>, raw: Option<string>, firstId: int)
    requires TagName(raw).Some? && FindTagByName(stored, TagName(raw).value).Some?
    ensures Reconcile(stored, [raw], firstId)
         == Reconciled([FindTagByName(stored, TagName(raw).value).value], [])
  {
    ReconcileSnoc(stored, [], raw, firstId);
  }

  /**
   * No deduplication within a request: a name that is not stored, sent
   * twice, creates two tags of that name, because the lookup does not see
   * the tag created for the first occurrence.
   */
  lemma RepeatedNewNameCreatesTwo(stored: seq<Tag>, raw: Option<string>, firstId: int)
    requires TagName(raw).Some? && FindTagByName(stored, TagName(raw).value).None?
    ensures var name := TagName(raw).value;
      Reconcile(stored, [raw, raw], firstId)
        == Reconciled([Tag(firstId, name), Tag(firstId + 1, name)], [Tag(firstId, name), Tag(firstId + 1, name)])
  {
    ReconcileSnoc(stored, [], raw, firstId);
    ReconcileSnoc(stored, [raw], raw, firstId);
  }

  /** Appending one entry runs one more turn of the loop. */
  lemma ReconcileSnoc(stored: seq<Tag>, raws: seq<Option<string>>, raw: Option<string>, firstId: int)
    ensures Reconcile(stored, raws + [raw], firstId)
         == ReconcileStep(stored, Reconcile(stored, raws, firstId), raw, firstId)
  {
    assert (raws + [raw])[..|raws|] == raws;
  }
}
