/** The module's per-location configuration (`ngx_http_jwt_conf_t`): how a
    location's settings are created unset and then merged with those of the
    enclosing scope (`ngx_http_jwt_merge_loc_conf`). */
module Config {
  import opened Octets
  import opened Algorithms

  /** A location's settings; `None` is nginx's "unset" marker (the NULL key,
      `NGX_CONF_UNSET`, `NGX_CONF_UNSET_UINT`, `NGX_CONF_UNSET_SIZE`). */
  datatype LocConf = LocConf(
    key: Option<seq<byte>>,
    issue: Option<bool>,
    issueAlgorithm: Option<Alg>,
    issueBufferSize: Option<nat>,
    verify: Option<bool>)
  {
    /** Every setting has a value, as after merging. */
    predicate Complete() {
      key.Some? && issue.Some? && issueAlgorithm.Some? && issueBufferSize.Some? && verify.Some?
    }
  }

  /** A freshly created location configuration: every setting unset. */
  const Created: LocConf := LocConf(None, None, None, None, None)

  const DefaultKey: seq<byte> := []
  const DefaultIssue := false
  const DefaultAlgorithm := HS512
  const DefaultBufferSize: nat := 1 * 1024 * 1024
  const DefaultVerify := false

  /** One `ngx_conf_merge_*_value`: the child's own value if set, else the
      parent's if set, else the default. */
  function MergeValue<T>(child: Option<T>, parent: Option<T>, default: T): (r: Option<T>)
    ensures r.Some? && (child.Some? ==> r == child)
    ensures child.None? ==> r == parent || r == Some(default)
  {
    if child.Some? then child else if parent.Some? then parent else Some(default)
  }

  function Merge(child: LocConf, parent: LocConf): (r: LocConf)
    ensures r.Complete()
  {
    LocConf(
      MergeValue(child.key, parent.key, DefaultKey),
      MergeValue(child.issue, parent.issue, DefaultIssue),
      MergeValue(child.issueAlgorithm, parent.issueAlgorithm, DefaultAlgorithm),
      MergeValue(child.issueBufferSize, parent.issueBufferSize, DefaultBufferSize),
      MergeValue(child.verify, parent.verify, DefaultVerify))
  }

  /** Two unset scopes give the module's defaults: an empty key, issuance and
      verification off, HS512, a 1 MiB issuance buffer. */
  lemma MergeDefaults()
    ensures Merge(Created, Created) == LocConf(Some([]), Some(false), Some(HS512), Some(1048576), Some(false))
  {
  }

  /** The first value set in `vals`, or `default` when none is. */
  function FirstSet<T>(vals: seq<Option<T>>, default: T): T {
    if vals == [] then default
    else if vals[0].Some? then vals[0].value
    else FirstSet(vals[1..], default)
  }

  /** The configuration of the innermost of nested scopes (innermost first).
      nginx merges top-down, so every scope below the outermost one is merged
      with the already merged configuration of its enclosing scope. */
  function Nested(scopes: seq<LocConf>): (r: LocConf)
    requires |scopes| > 0
    ensures |scopes| == 1 ==> r == scopes[0]
    ensures |scopes| > 1 ==> r.Complete()
  {
    if |scopes| == 1 then scopes[0] else Merge(scopes[0], Nested(scopes[1..]))
  }

  /** One merge step seen through FirstSet: the parent is either an unmerged
      outermost scope or itself the result of merging the scopes `vals`. */
  lemma MergeValueStep<T>(c: Option<T>, vals: seq<Option<T>>, parent: Option<T>, default: T)
    requires |vals| >= 1
    requires parent == Some(FirstSet(vals, default)) || (|vals| == 1 && parent == vals[0])
    ensures MergeValue(c, parent, default) == Some(FirstSet([c] + vals, default))
  {
    assert ([c] + vals)[1..] == vals;
    assert FirstSet([c] + vals, default) == if c.Some? then c.value else FirstSet(vals, default);
    if |vals| == 1 {
      assert vals[1..] == [];
      assert FirstSet(vals, default) == if vals[0].Some? then vals[0].value else default;
    }
  }

  /** Through any depth of nesting, each setting comes from the innermost scope
      that sets it, and defaults only when no scope sets it. */
  lemma {:induction false} NestedSettings(scopes: seq<LocConf>)
    requires |scopes| >= 2
    ensures Nested(scopes).key ==
      Some(FirstSet(seq(|scopes|, i requires 0 <= i < |scopes| => scopes[i].key), DefaultKey))
    ensures Nested(scopes).issue ==
      Some(FirstSet(seq(|scopes|, i requires 0 <= i < |scopes| => scopes[i].issue), DefaultIssue))
    ensures Nested(scopes).issueAlgorithm ==
      Some(FirstSet(seq(|scopes|, i requires 0 <= i < |scopes| => scopes[i].issueAlgorithm), DefaultAlgorithm))
    ensures Nested(scopes).issueBufferSize ==
      Some(FirstSet(seq(|scopes|, i requires 0 <= i < |scopes| => scopes[i].issueBufferSize), DefaultBufferSize))
    ensures Nested(scopes).verify ==
      Some(FirstSet(seq(|scopes|, i requires 0 <= i < |scopes| => scopes[i].verify), DefaultVerify))
  {
    var s0, rest := scopes[0], scopes[1..];
    if |scopes| > 2 {
      NestedSettings(rest);
    }
    var keys := seq(|rest|, i requires 0 <= i < |rest| => rest[i].key);
    var issues := seq(|rest|, i requires 0 <= i < |rest| => rest[i].issue);
    var algs := seq(|rest|, i requires 0 <= i < |rest| => rest[i].issueAlgorithm);
    var sizes := seq(|rest|, i requires 0 <= i < |rest| => rest[i].issueBufferSize);
    var verifies := seq(|rest|, i requires 0 <= i < |rest| => rest[i].verify);
    var p := Nested(rest);
    MergeValueStep(s0.key, keys, p.key, DefaultKey);
    MergeValueStep(s0.issue, issues, p.issue, DefaultIssue);
    MergeValueStep(s0.issueAlgorithm, algs, p.issueAlgorithm, DefaultAlgorithm);
    MergeValueStep(s0.issueBufferSize, sizes, p.issueBufferSize, DefaultBufferSize);
    MergeValueStep(s0.verify, verifies, p.verify, DefaultVerify);
    assert seq(|scopes|, i requires 0 <= i < |scopes| => scopes[i].key) == [s0.key] + keys;
    assert seq(|scopes|, i requires 0 <= i < |scopes| => scopes[i].issue) == [s0.issue] + issues;
    assert seq(|scopes|, i requires 0 <= i < |scopes| => scopes[i].issueAlgorithm) == [s0.issueAlgorithm] + algs;
    assert seq(|scopes|, i requires 0 <= i < |scopes| => scopes[i].issueBufferSize) == [s0.issueBufferSize] + sizes;
    assert seq(|scopes|, i requires 0 <= i < |scopes| => scopes[i].verify) == [s0.verify] + verifies;
  }

  /** Merging one location: a setting made in the location itself beats the
      enclosing scope's, an unset one is inherited, and with neither the
      default applies. */
  lemma MergeSettings(child: LocConf, parent: LocConf)
    ensures Merge(child, parent).key == Some(FirstSet([child.key, parent.key], DefaultKey))
    ensures Merge(child, parent).issue == Some(FirstSet([child.issue, parent.issue], DefaultIssue))
    ensures Merge(child, parent).issueAlgorithm ==
      Some(FirstSet([child.issueAlgorithm, parent.issueAlgorithm], DefaultAlgorithm))
    ensures Merge(child, parent).issueBufferSize ==
      Some(FirstSet([child.issueBufferSize, parent.issueBufferSize], DefaultBufferSize))
    ensures Merge(child, parent).verify == Some(FirstSet([child.verify, parent.verify], DefaultVerify))
  {
    MergeValueStep(child.key, [parent.key], parent.key, DefaultKey);
    MergeValueStep(child.issue, [parent.issue], parent.issue, DefaultIssue);
    MergeValueStep(child.issueAlgorithm, [parent.issueAlgorithm], parent.issueAlgorithm, DefaultAlgorithm);
    MergeValueStep(child.issueBufferSize, [parent.issueBufferSize], parent.issueBufferSize, DefaultBufferSize);
    MergeValueStep(child.verify, [parent.verify], parent.verify, DefaultVerify);
  }

  /** A location that sets everything itself is unaffected by merging. */
  lemma MergeKeepsCompleteChild(child: LocConf, parent: LocConf)
    requires child.Complete()
    ensures Merge(child, parent) == child
  {
  }
}
