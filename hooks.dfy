/**
 * The project-hook settings record and buildHookQuery, which turns it into
 * the application/x-www-form-urlencoded body that the hook management API
 * is sent when a hook is added or edited.
 *
 * buildHookQuery walks the record's fields by reflection. Here the walk is
 * over an explicit table of the record's fields (name, JSON tag, value), in
 * declaration order, and each turn of the loop does what the Go loop body
 * does with one field.
 */
module Hooks {
  import opened Wrappers
  import opened ByteStrings
  import Query

  // ---------------------------------------------------------------------
  // The settings record
  // ---------------------------------------------------------------------

  /** A project hook. A `*bool` field is `None` when the pointer is nil. */
  datatype Hook = Hook(
    id: int,
    url: Bytes,
    createdAt: Bytes,
    pushEvents: Option<bool>,
    issuesEvents: Option<bool>,
    mergeRequestsEvents: Option<bool>,
    tagPushEvents: Option<bool>,
    noteEvents: Option<bool>,
    buildEvents: Option<bool>,
    pipelineEvents: Option<bool>,
    wikiPageEvents: Option<bool>,
    enableSslVerification: Option<bool>)

  /** The nine `*bool` fields of a hook. */
  datatype Switch =
    | PushEvents | IssuesEvents | MergeRequestsEvents | TagPushEvents | NoteEvents
    | BuildEvents | PipelineEvents | WikiPageEvents | EnableSslVerification

  /** The switches in declaration order. */
  const Switches: seq<Switch> := [
    PushEvents, IssuesEvents, MergeRequestsEvents, TagPushEvents, NoteEvents,
    BuildEvents, PipelineEvents, WikiPageEvents, EnableSslVerification
  ]

  function Flag(h: Hook, s: Switch): Option<bool>
  {
    match s
    case PushEvents => h.pushEvents
    case IssuesEvents => h.issuesEvents
    case MergeRequestsEvents => h.mergeRequestsEvents
    case TagPushEvents => h.tagPushEvents
    case NoteEvents => h.noteEvents
    case BuildEvents => h.buildEvents
    case PipelineEvents => h.pipelineEvents
    case WikiPageEvents => h.wikiPageEvents
    case EnableSslVerification => h.enableSslVerification
  }

  /** The Go name of a switch's field. */
  function SwitchName(s: Switch): string
  {
    match s
    case PushEvents => "PushEvents"
    case IssuesEvents => "IssuesEvents"
    case MergeRequestsEvents => "MergeRequestsEvents"
    case TagPushEvents => "TagPushEvents"
    case NoteEvents => "NoteEvents"
    case BuildEvents => "BuildEvents"
    case PipelineEvents => "PipelineEvents"
    case WikiPageEvents => "WikiPageEvents"
    case EnableSslVerification => "EnableSSLVerification"
  }

  /** The JSON name of a switch's field: the key it is sent under. */
  function SwitchKey(s: Switch): Bytes
  {
    match s
    case PushEvents => "push_events"
    case IssuesEvents => "issues_events"
    case MergeRequestsEvents => "merge_requests_events"
    case TagPushEvents => "tag_push_events"
    case NoteEvents => "note_events"
    case BuildEvents => "build_events"
    case PipelineEvents => "pipeline_events"
    case WikiPageEvents => "wiki_page_events"
    case EnableSslVerification => "enable_ssl_verification"
  }

  const UrlKey: Bytes := "url"

  // ---------------------------------------------------------------------
  // The record as reflection sees it
  // ---------------------------------------------------------------------

  /** A value that fmt's %v can print. */
  datatype Scalar = IntScalar(n: int) | StringScalar(s: Bytes) | BoolScalar(b: bool)

  /** A field's value: held directly, or behind a pointer that may be nil. */
  datatype Value = Direct(x: Scalar) | Pointer(target: Option<Scalar>)

  /** A struct field: its Go name, its `json` tag and its value. */
  datatype Field = Field(name: string, tag: Bytes, value: Value)

  /** Every tag of the record has the form `json:"<name>,omitempty"`. */
  function JsonTag(name: Bytes): Bytes
  {
    name + ",omitempty"
  }

  function BoolPointer(p: Option<bool>): Value
  {
    match p
    case None => Pointer(None)
    case Some(b) => Pointer(Some(BoolScalar(b)))
  }

  function SwitchField(h: Hook, s: Switch): Field
  {
    Field(SwitchName(s), JsonTag(SwitchKey(s)), BoolPointer(Flag(h, s)))
  }

  function SwitchFields(h: Hook, ss: seq<Switch>): seq<Field>
  {
    seq(|ss|, i requires 0 <= i < |ss| => SwitchField(h, ss[i]))
  }

  /** The three plain fields that come first. */
  function PlainFields(h: Hook): seq<Field>
  {
    [
      Field("ID", JsonTag("id"), Direct(IntScalar(h.id))),
      Field("URL", JsonTag("url"), Direct(StringScalar(h.url))),
      Field("CreatedAt", JsonTag("created_at"), Direct(StringScalar(h.createdAt)))
    ]
  }

  /** The fields of a hook in declaration order: what the reflective walk visits. */
  function Fields(h: Hook): seq<Field>
  {
    PlainFields(h) + SwitchFields(h, Switches)
  }

  // ---------------------------------------------------------------------
  // One turn of the loop
  // ---------------------------------------------------------------------

  /** strings.Split(tag, ",")[0]: the name in a tag, its text before the first comma. */
  function TagKey(tag: Bytes): (key: Bytes)
    ensures key <= tag && ',' !in key
    ensures |key| < |tag| ==> tag[|key|] == ','
  {
    Split(tag, ',')[0]
  }

  /** The name in a tag `<name>,omitempty` is `<name>`, never the whole tag. */
  lemma TagKeyOfJsonTag(name: Bytes)
    requires ',' !in name
    ensures TagKey(JsonTag(name)) == name
  {
    var tag := JsonTag(name);
    var key := TagKey(tag);
    assert tag[|name|] == ',';
  }

  function Digit(d: nat): (c: byte)
    requires d < 10
  {
    ('0' as int + d) as char
  }

  /** The decimal digits of n, most significant first. */
  function Digits(n: nat): (r: Bytes)
    ensures r != [] && forall i :: 0 <= i < |r| ==> '0' <= r[i] <= '9'
    ensures DigitsValue(r) == n
    ensures |r| == 1 || r[0] != '0'
  {
    if n < 10 then [Digit(n)]
    else
      var high := Digits(n / 10);
      var r := high + [Digit(n % 10)];
      assert r[..|r| - 1] == high;
      assert |high| == 1 ==> DigitsValue(high) == high[0] as int - '0' as int by {
        if |high| == 1 {
          assert high[..0] == [];
        }
      }
      r
  }

  /** The number that a string of decimal digits stands for. */
  function DigitsValue(r: Bytes): nat
    requires forall i :: 0 <= i < |r| ==> '0' <= r[i] <= '9'
  {
    if r == [] then 0
    else DigitsValue(r[..|r| - 1]) * 10 + (r[|r| - 1] as int - '0' as int)
  }

  /** fmt's %v for an int: a minus sign for a negative one, then the digits without leading zeros. */
  function Decimal(n: int): (r: Bytes)
    ensures r != [] && (r[0] == '-' <==> n < 0)
    ensures var digits := if n < 0 then r[1..] else r;
      && digits != []
      && (forall i :: 0 <= i < |digits| ==> '0' <= digits[i] <= '9')
      && DigitsValue(digits) == (if n < 0 then -n else n)
      && (|digits| == 1 || digits[0] != '0')
  {
    if n < 0 then
      var r := "-" + Digits(-n);
      assert r[1..] == Digits(-n);
      r
    else Digits(n)
  }

  /** fmt's %v for a bool. */
  function FormatBool(b: bool): (r: Bytes)
    ensures r == "true" || r == "false"
    ensures r == "true" <==> b
  {
    if b then "true" else "false"
  }

  /** fmt.Sprintf("%v", x). */
  function Format(x: Scalar): Bytes
  {
    match x
    case IntScalar(n) => Decimal(n)
    case StringScalar(s) => s
    case BoolScalar(b) => FormatBool(b)
  }

  /**
   * What the loop body does with one field: None when it skips the field
   * (ID and CreatedAt by name, a nil pointer), otherwise the pair it Sets.
   */
  function Contribution(f: Field): (r: Option<(Bytes, Bytes)>)
    ensures r.None? <==> f.name == "ID" || f.name == "CreatedAt" || f.value == Pointer(None)
    ensures r.Some? ==> r.value.0 == TagKey(f.tag) && ',' !in r.value.0
  {
    if f.name == "ID" || f.name == "CreatedAt" then None
    else
      match f.value
      case Direct(x) => Some((TagKey(f.tag), Format(x)))
      case Pointer(None) => None
      case Pointer(Some(x)) => Some((TagKey(f.tag), Format(x)))
  }

  /** The pairs the loop Sets over the fields, in order. */
  function Contributions(fs: seq<Field>): seq<(Bytes, Bytes)>
  {
    if fs == [] then []
    else
      var init := Contributions(fs[..|fs| - 1]);
      match Contribution(fs[|fs| - 1])
      case None => init
      case Some(p) => init + [p]
  }

  // ---------------------------------------------------------------------
  // What the walk should produce, stated without the field table
  // ---------------------------------------------------------------------

  /** One pair per set switch, in declaration order: its JSON name and "true" or "false". */
  function SwitchPairs(h: Hook, ss: seq<Switch>): seq<(Bytes, Bytes)>
  {
    if ss == [] then []
    else
      var init := SwitchPairs(h, ss[..|ss| - 1]);
      var s := ss[|ss| - 1];
      match Flag(h, s)
      case None => init
      case Some(b) => init + [(SwitchKey(s), FormatBool(b))]
  }

  /** The pairs a hook is sent: "url" with its URL, then the set switches. */
  function HookPairs(h: Hook): seq<(Bytes, Bytes)>
  {
    [(UrlKey, h.url)] + SwitchPairs(h, Switches)
  }

  /** The url.Values that buildHookQuery should fill: "url", and one entry per set switch. */
  function HookValues(h: Hook): Query.Values
  {
    Query.FromPairs(HookPairs(h))
  }

  /** The body buildHookQuery should return: those values, encoded. */
  function HookQuery(h: Hook): Bytes
  {
    Query.Encode(HookValues(h))
  }

  // ---------------------------------------------------------------------
  // buildHookQuery
  // ---------------------------------------------------------------------

  /** Builds the form body for adding or editing a hook. */
  method BuildHookQuery(hook: Hook) returns (body: Bytes)
    ensures body == HookQuery(hook)
    ensures body != []
    ensures Query.Parse(body) == Some(HookValues(hook))
  {
    var v: Query.Values := map[];
    var fields := Fields(hook);
    for i := 0 to |fields|
      invariant v == Query.FromPairs(Contributions(fields[..i]))
    {
      ContributionsStep(fields, i);
      var field := fields[i];
      if field.name == "ID" || field.name == "CreatedAt" {
        continue;
      }
      var val: Scalar;
      match field.value {
        case Direct(x) =>
          val := x;
        case Pointer(p) =>
          if p.None? {
            continue;
          }
          val := p.value;
      }
      v := v[TagKey(field.tag) := Format(val)];
    }
    assert fields[..|fields|] == fields;
    HookContributions(hook);
    body := Query.Encode(v);
    QueryNeverEmpty(hook);
    Query.ParseEncode(v);
  }

  // ---------------------------------------------------------------------
  // What the body holds
  // ---------------------------------------------------------------------

  /** One more turn of the loop Sets one more pair, or nothing. */
  lemma ContributionsStep(fs: seq<Field>, i: nat)
    requires i < |fs|
    ensures Query.FromPairs(Contributions(fs[..i + 1])) ==
      match Contribution(fs[i])
      case None => Query.FromPairs(Contributions(fs[..i]))
      case Some(p) => Query.FromPairs(Contributions(fs[..i]))[p.0 := p.1]
  {
    assert fs[..i + 1][..i] == fs[..i];
    var ps := Contributions(fs[..i]);
    match Contribution(fs[i])
    case None =>
    case Some(p) =>
      assert (ps + [p])[..|ps|] == ps;
  }

  lemma {:induction false} ContributionsAppend(a: seq<Field>, b: seq<Field>)
    ensures Contributions(a + b) == Contributions(a) + Contributions(b)
    decreases |b|
  {
    if b == [] {
      assert a + b == a;
    } else {
      var b' := b[..|b| - 1];
      ContributionsAppend(a, b');
      assert (a + b)[..|a + b| - 1] == a + b';
      assert (a + b)[|a + b| - 1] == b[|b| - 1];
    }
  }

  lemma NoCommaInKeys(s: Switch)
    ensures ',' !in SwitchKey(s) && ',' !in UrlKey
  {
  }

  lemma {:induction false} SwitchContributions(h: Hook, ss: seq<Switch>)
    ensures Contributions(SwitchFields(h, ss)) == SwitchPairs(h, ss)
    decreases |ss|
  {
    if ss != [] {
      var fs := SwitchFields(h, ss);
      var s := ss[|ss| - 1];
      SwitchContributions(h, ss[..|ss| - 1]);
      assert fs[..|fs| - 1] == SwitchFields(h, ss[..|ss| - 1]);
      NoCommaInKeys(s);
      TagKeyOfJsonTag(SwitchKey(s));
    }
  }

  /** The loop sets "url" first, then one pair per set switch, in declaration order. */
  lemma HookContributions(h: Hook)
    ensures Contributions(Fields(h)) == [(UrlKey, h.url)] + SwitchPairs(h, Switches)
  {
    ContributionsAppend(PlainFields(h), SwitchFields(h, Switches));
    SwitchContributions(h, Switches);
    PlainContributions(h);
  }

  /** Of the three plain fields only URL is Set, under "url". */
  lemma PlainContributions(h: Hook)
    ensures Contributions(PlainFields(h)) == [(UrlKey, h.url)]
  {
    var plain := PlainFields(h);
    assert Contribution(plain[0]) == None;
    assert Contribution(plain[1]) == Some((UrlKey, h.url)) by {
      TagKeyOfJsonTag(UrlKey);
    }
    assert Contribution(plain[2]) == None;
    assert plain[..1][..0] == [];
    assert Contributions(plain[..1]) == [];
    assert plain[..2][..1] == plain[..1];
    assert Contributions(plain[..2]) == [(UrlKey, h.url)];
    assert plain[..3] == plain;
  }

  lemma SwitchKeyInjective(s: Switch, t: Switch)
    ensures SwitchKey(s) == SwitchKey(t) ==> s == t
    ensures SwitchKey(s) != UrlKey
  {
  }

  /** The switch pairs are the keys and printed values of exactly the set switches. */
  lemma {:induction false} SwitchPairsMembers(h: Hook, ss: seq<Switch>, p: (Bytes, Bytes))
    ensures p in SwitchPairs(h, ss) <==>
      exists s :: s in ss && Flag(h, s).Some? && p == (SwitchKey(s), FormatBool(Flag(h, s).value))
    decreases |ss|
  {
    if ss != [] {
      var init := ss[..|ss| - 1];
      var last := ss[|ss| - 1];
      SwitchPairsMembers(h, init, p);
      assert ss == init + [last];
    }
  }

  /** Over distinct switches the switch pairs have distinct keys. */
  lemma {:induction false} SwitchPairsDistinct(h: Hook, ss: seq<Switch>)
    requires forall i, j :: 0 <= i < j < |ss| ==> ss[i] != ss[j]
    ensures Query.DistinctKeys(SwitchPairs(h, ss))
    decreases |ss|
  {
    if ss != [] {
      var init := ss[..|ss| - 1];
      var last := ss[|ss| - 1];
      SwitchPairsDistinct(h, init);
      var ps := SwitchPairs(h, init);
      if Flag(h, last).Some? {
        forall i | 0 <= i < |ps|
          ensures ps[i].0 != SwitchKey(last)
        {
          SwitchPairsMembers(h, init, ps[i]);
          var t :| t in init && Flag(h, t).Some? && ps[i] == (SwitchKey(t), FormatBool(Flag(h, t).value));
          SwitchKeyInjective(t, last);
        }
      }
    }
  }

  /** Over distinct switches there is one switch pair per set switch. */
  lemma {:induction false} SwitchPairsCount(h: Hook, ss: seq<Switch>)
    requires forall i, j :: 0 <= i < j < |ss| ==> ss[i] != ss[j]
    ensures |SwitchPairs(h, ss)| == |set s | s in ss && Flag(h, s).Some?| <= |ss|
    decreases |ss|
  {
    if ss != [] {
      var init := ss[..|ss| - 1];
      var last := ss[|ss| - 1];
      SwitchPairsCount(h, init);
      var before := set s | s in init && Flag(h, s).Some?;
      var after := set s | s in ss && Flag(h, s).Some?;
      assert ss == init + [last];
      if Flag(h, last).Some? {
        assert last !in before;
        assert after == before + {last};
      } else {
        assert after == before;
      }
    }
  }

  lemma HookPairsDistinct(h: Hook)
    ensures Query.DistinctKeys(HookPairs(h))
  {
    SwitchPairsDistinct(h, Switches);
    var ps := HookPairs(h);
    forall i | 0 < i < |ps|
      ensures ps[i].0 != UrlKey
    {
      SwitchPairsMembers(h, Switches, ps[i]);
      var t :| t in Switches && Flag(h, t).Some? && ps[i] == (SwitchKey(t), FormatBool(Flag(h, t).value));
      SwitchKeyInjective(t, t);
    }
  }

  lemma KeysNamed(h: Hook)
    ensures forall k :: k in HookValues(h) ==>
      k == UrlKey || exists s :: s in Switches && Flag(h, s).Some? && k == SwitchKey(s)
  {
    var ps := HookPairs(h);
    Query.FromPairsKeys(ps);
    forall k | k in HookValues(h) && k != UrlKey
      ensures exists s :: s in Switches && Flag(h, s).Some? && k == SwitchKey(s)
    {
      var i :| 0 <= i < |ps| && ps[i].0 == k;
      SwitchPairsMembers(h, Switches, ps[i]);
    }
  }

  lemma NamedKeysSent(h: Hook)
    ensures UrlKey in HookValues(h)
    ensures forall s :: s in Switches && Flag(h, s).Some? ==> SwitchKey(s) in HookValues(h)
  {
    var ps := HookPairs(h);
    Query.FromPairsKeys(ps);
    assert ps[0].0 == UrlKey;
    forall s | s in Switches && Flag(h, s).Some?
      ensures SwitchKey(s) in HookValues(h)
    {
      var p := (SwitchKey(s), FormatBool(Flag(h, s).value));
      SwitchPairsMembers(h, Switches, p);
      var i :| 0 <= i < |SwitchPairs(h, Switches)| && SwitchPairs(h, Switches)[i] == p;
      assert ps[i + 1] == p;
    }
  }

  /** The keys of the body: "url", and the key of every switch whose pointer is not nil. */
  lemma HookKeys(h: Hook)
    ensures HookValues(h).Keys == {UrlKey} + set s | s in Switches && Flag(h, s).Some? :: SwitchKey(s)
  {
    KeysNamed(h);
    NamedKeysSent(h);
  }

  /** The "url" pair is always sent, with the hook's URL, even an empty one. */
  lemma UrlAlwaysSet(h: Hook)
    ensures UrlKey in HookValues(h) && HookValues(h)[UrlKey] == h.url
  {
    HookPairsDistinct(h);
    Query.FromPairsValue(HookPairs(h), 0);
  }

  /**
   * A switch contributes a pair exactly when its pointer is not nil; the
   * pair's key is the switch's JSON name and its value "true" or "false".
   */
  lemma SwitchSet(h: Hook, s: Switch)
    ensures SwitchKey(s) in HookValues(h) <==> Flag(h, s).Some?
    ensures Flag(h, s) == Some(true) ==> HookValues(h)[SwitchKey(s)] == "true"
    ensures Flag(h, s) == Some(false) ==> HookValues(h)[SwitchKey(s)] == "false"
  {
    HookKeys(h);
    assert s in Switches;
    forall t | SwitchKey(t) == SwitchKey(s)
      ensures t == s
    {
      SwitchKeyInjective(t, s);
    }
    SwitchKeyInjective(s, s);
    if Flag(h, s).Some? {
      var p := (SwitchKey(s), FormatBool(Flag(h, s).value));
      var ps := HookPairs(h);
      SwitchPairsMembers(h, Switches, p);
      var i :| 0 <= i < |SwitchPairs(h, Switches)| && SwitchPairs(h, Switches)[i] == p;
      assert ps[i + 1] == p;
      HookPairsDistinct(h);
      Query.FromPairsValue(ps, i + 1);
    }
  }

  /** One pair for "url" and one per non-nil switch: between 1 and 10 pairs. */
  lemma PairCount(h: Hook)
    ensures |HookValues(h)| == 1 + |set s | s in Switches && Flag(h, s).Some?|
    ensures 1 <= |HookValues(h)| <= 10
  {
    HookPairsDistinct(h);
    SwitchPairsCount(h, Switches);
    Query.FromPairsSize(HookPairs(h));
  }

  lemma {:induction false} SwitchPairsSameFlags(h: Hook, h': Hook, ss: seq<Switch>)
    requires forall s :: Flag(h, s) == Flag(h', s)
    ensures SwitchPairs(h, ss) == SwitchPairs(h', ss)
    decreases |ss|
  {
    if ss != [] {
      SwitchPairsSameFlags(h, h', ss[..|ss| - 1]);
    }
  }

  /** ID and CreatedAt are never sent: changing them leaves the body as it was. */
  lemma IdAndCreatedAtIgnored(h: Hook, id: int, createdAt: Bytes)
    ensures HookQuery(h.(id := id, createdAt := createdAt)) == HookQuery(h)
  {
    var h' := h.(id := id, createdAt := createdAt);
    SwitchPairsSameFlags(h, h', Switches);
    assert HookPairs(h') == HookPairs(h);
  }

  /** The body is never empty, since the "url" pair is always there. */
  lemma QueryNeverEmpty(h: Hook)
    ensures HookQuery(h) != []
  {
    UrlAlwaysSet(h);
    Query.EncodeEmpty(HookValues(h));
  }

  /** Lower-case letters and underscores only, as every key and both booleans are. */
  predicate LowerSnakeCase(s: Bytes)
  {
    forall c :: c in s ==> 'a' <= c <= 'z' || c == '_'
  }

  lemma SwitchKeySnakeCase(s: Switch)
    ensures LowerSnakeCase(SwitchKey(s))
  {
    match s
    case PushEvents =>
    case IssuesEvents =>
    case MergeRequestsEvents =>
    case TagPushEvents =>
    case NoteEvents =>
    case BuildEvents =>
    case PipelineEvents =>
    case WikiPageEvents =>
    case EnableSslVerification =>
  }

  lemma SnakeCaseUnreserved(s: Bytes)
    requires LowerSnakeCase(s)
    ensures Query.AllUnreserved(s)
  {
    forall i | 0 <= i < |s|
      ensures Query.Unreserved(s[i])
    {
      assert s[i] in s;
    }
  }

  lemma LiteralsUnreserved(s: Switch, b: bool)
    ensures Query.AllUnreserved(SwitchKey(s)) && Query.AllUnreserved(UrlKey)
    ensures Query.AllUnreserved(FormatBool(b))
  {
    SwitchKeySnakeCase(s);
    SnakeCaseUnreserved(SwitchKey(s));
    assert LowerSnakeCase(UrlKey);
    SnakeCaseUnreserved(UrlKey);
    assert LowerSnakeCase(FormatBool(b));
    SnakeCaseUnreserved(FormatBool(b));
  }

  /**
   * Every key, and every value except the URL, is made of unreserved
   * characters, so QueryEscape leaves it as it is.
   */
  lemma OnlyUrlNeedsEscaping(h: Hook)
    ensures forall k :: k in HookValues(h) ==> Query.Escape(k) == k
    ensures forall k :: k in HookValues(h) && k != UrlKey ==> Query.Escape(HookValues(h)[k]) == HookValues(h)[k]
  {
    var v := HookValues(h);
    HookKeys(h);
    forall k | k in v
      ensures Query.Escape(k) == k
      ensures k != UrlKey ==> Query.Escape(v[k]) == v[k]
    {
      if k == UrlKey {
        LiteralsUnreserved(PushEvents, true);
        Query.EscapeUnreserved(k);
      } else {
        var s :| s in Switches && Flag(h, s).Some? && k == SwitchKey(s);
        SwitchSet(h, s);
        LiteralsUnreserved(s, Flag(h, s).value);
        assert v[k] == FormatBool(Flag(h, s).value);
        Query.EscapeUnreserved(k);
        Query.EscapeUnreserved(v[k]);
      }
    }
  }

  /**
   * The body, cut at each '&': one "key=value" part per key, keys strictly
   * ascending; keys and "true"/"false" appear as they are, only the URL is
   * escaped.
   */
  lemma QueryShape(h: Hook)
    ensures var v := HookValues(h);
      var ks := Query.SortedKeys(v.Keys);
      var parts := Split(HookQuery(h), '&');
      && Query.StrictlyAscending(ks)
      && |parts| == |ks| == |v|
      && forall i :: 0 <= i < |ks| ==>
           parts[i] == ks[i] + "=" + (if ks[i] == UrlKey then Query.Escape(h.url) else v[ks[i]])
  {
    var v := HookValues(h);
    var ks := Query.SortedKeys(v.Keys);
    UrlAlwaysSet(h);
    Query.EncodeParts(v);
    OnlyUrlNeedsEscaping(h);
    assert |v.Keys| == |v|;
  }
}
