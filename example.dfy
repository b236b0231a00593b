/**
 * The hook that TestBuildHookQuery builds: six switches set, three nil.
 *
 * For every hook whose switches are set this way the body has exactly
 * seven parts, in the order below, so it can never be the empty string
 * that test expects.
 */
module HookExample {
  import opened Wrappers
  import opened ByteStrings
  import Query
  import opened Hooks

  /** The test's hook, with its URL left as a parameter. */
  function SampleHook(url: Bytes): (h: Hook)
    ensures LikeSample(h) && h.url == url
  {
    Hook(123214, url, "", Some(true), Some(true), Some(true), None, Some(false), Some(false), None, None, Some(true))
  }

  /** A hook whose switches are set as the test's are. */
  predicate LikeSample(h: Hook)
  {
    && h.pushEvents == Some(true) && h.issuesEvents == Some(true)
    && h.mergeRequestsEvents == Some(true) && h.tagPushEvents == None
    && h.noteEvents == Some(false) && h.buildEvents == Some(false)
    && h.pipelineEvents == None && h.wikiPageEvents == None
    && h.enableSslVerification == Some(true)
  }

  /** The keys such a hook is sent, in Go's string order. */
  const SampleKeys: seq<Bytes> := [
    SwitchKey(BuildEvents), SwitchKey(EnableSslVerification), SwitchKey(IssuesEvents),
    SwitchKey(MergeRequestsEvents), SwitchKey(NoteEvents), SwitchKey(PushEvents), UrlKey
  ]

  lemma SampleKeysAscending()
    ensures Query.StrictlyAscending(SampleKeys)
  {
    assert Less(SampleKeys[0], SampleKeys[1]);
    assert Less(SampleKeys[1], SampleKeys[2]);
    assert Less(SampleKeys[2], SampleKeys[3]);
    assert Less(SampleKeys[3], SampleKeys[4]);
    assert Less(SampleKeys[4], SampleKeys[5]);
    assert Less(SampleKeys[5], SampleKeys[6]);
    Query.AscendingFromNeighbours(SampleKeys);
  }

  lemma SampleKeysPresent(h: Hook)
    requires LikeSample(h)
    ensures forall k :: k in SampleKeys ==> k in HookValues(h)
  {
    UrlAlwaysSet(h);
    SwitchSet(h, BuildEvents);
    SwitchSet(h, EnableSslVerification);
    SwitchSet(h, IssuesEvents);
    SwitchSet(h, MergeRequestsEvents);
    SwitchSet(h, NoteEvents);
    SwitchSet(h, PushEvents);
  }

  lemma SetSwitchListed(h: Hook, s: Switch)
    requires LikeSample(h) && Flag(h, s).Some?
    ensures SwitchKey(s) in SampleKeys
  {
    match s
    case BuildEvents =>
    case EnableSslVerification =>
    case IssuesEvents =>
    case MergeRequestsEvents =>
    case NoteEvents =>
    case PushEvents =>
  }

  lemma SampleKeysOnly(h: Hook)
    requires LikeSample(h)
    ensures forall k :: k in HookValues(h) ==> k in SampleKeys
  {
    HookKeys(h);
    forall k | k in HookValues(h)
      ensures k in SampleKeys
    {
      if k == UrlKey {
        assert SampleKeys[6] == k;
      } else {
        var s :| s in Switches && Flag(h, s).Some? && k == SwitchKey(s);
        SetSwitchListed(h, s);
      }
    }
  }

  /** Such a hook's body lists exactly the sample keys, in this order. */
  lemma SampleOrder(h: Hook)
    requires LikeSample(h)
    ensures Query.SortedKeys(HookValues(h).Keys) == SampleKeys
    ensures |Split(HookQuery(h), '&')| == 7
  {
    var v := HookValues(h);
    SampleKeysPresent(h);
    SampleKeysOnly(h);
    SampleKeysAscending();
    Query.SortedKeysUnique(v.Keys, SampleKeys);
    QueryShape(h);
  }

  /** The test's own hook, whatever its URL: seven parts, in the sample order. */
  lemma TestHookOrder(url: Bytes)
    ensures Query.SortedKeys(HookValues(SampleHook(url)).Keys) == SampleKeys
    ensures |Split(HookQuery(SampleHook(url)), '&')| == 7
  {
    SampleOrder(SampleHook(url));
  }
}
