/**
  Locating the spreadsheet: `extractId` in get-data.js turns a shared link, or a bare ID,
  into the ID the visualisation-query endpoint is addressed with.

  It tries two regular expressions in turn: `/[-\w]{44,}/` (a long run of ID characters) and
  `/spreadsheets\/d\/([-\w]+)/`, and returns the WHOLE text of the first one that matches
  (`idMatch[0]`), or the input itself when neither matches. For the second expression that
  whole text still begins with `spreadsheets/d/`; `ExtractIdIntended` is the variant that
  returns the capture group instead.
*/
module SheetLink {
  import opened Wrappers

  /** `[-\w]`: an ASCII letter, digit, underscore or hyphen. */
  predicate IsIdChar(c: char) {
    c == '-' || c == '_' || ('a' <= c <= 'z') || ('A' <= c <= 'Z') || ('0' <= c <= '9')
  }

  predicate AllIdChars(s: string, i: nat, j: nat)
    requires i <= j <= |s|
  {
    forall k :: i <= k < j ==> IsIdChar(s[k])
  }

  /** The `{44,}` of the first expression. */
  const MinIdLength: nat := 44

  const UrlMarker: string := "spreadsheets/d/"

  /** `[-\w]{44,}` can match starting at `i`. */
  predicate LongRunAt(s: string, i: nat) {
    i + MinIdLength <= |s| && AllIdChars(s, i, i + MinIdLength)
  }

  /** `spreadsheets\/d\/([-\w]+)` can match starting at `i`. */
  predicate UrlAt(s: string, i: nat) {
    i + |UrlMarker| < |s| && s[i..i + |UrlMarker|] == UrlMarker && IsIdChar(s[i + |UrlMarker|])
  }

  /** Where a greedy `[-\w]+` or `[-\w]{44,}` that starts at `j` stops: the end of the run. */
  function RunEnd(s: string, j: nat): (e: nat)
    requires j <= |s|
    ensures j <= e <= |s|
    ensures AllIdChars(s, j, e)
    ensures e < |s| ==> !IsIdChar(s[e])
    decreases |s| - j
  {
    if j < |s| && IsIdChar(s[j]) then RunEnd(s, j + 1) else j
  }

  /** The leftmost position at or after `from` where the first expression matches. */
  function FindLongRun(s: string, from: nat): (r: Option<nat>)
    ensures r.Some? ==> from <= r.value && LongRunAt(s, r.value)
    ensures r.Some? ==> forall k :: from <= k < r.value ==> !LongRunAt(s, k)
    ensures r.None? ==> forall k :: from <= k ==> !LongRunAt(s, k)
    decreases |s| - from
  {
    if from + MinIdLength > |s| then None
    else if LongRunAt(s, from) then Some(from)
    else FindLongRun(s, from + 1)
  }

  /** The leftmost position at or after `from` where the second expression matches. */
  function FindUrl(s: string, from: nat): (r: Option<nat>)
    ensures r.Some? ==> from <= r.value && UrlAt(s, r.value)
    ensures r.Some? ==> forall k :: from <= k < r.value ==> !UrlAt(s, k)
    ensures r.None? ==> forall k :: from <= k ==> !UrlAt(s, k)
    decreases |s| - from
  {
    if from + |UrlMarker| >= |s| then None
    else if UrlAt(s, from) then Some(from)
    else FindUrl(s, from + 1)
  }

  /** `extractId(input)` as get-data.js writes it. */
  function ExtractId(input: string): string {
    match FindLongRun(input, 0)
    case Some(i) => input[i..RunEnd(input, i)]
    case None =>
      match FindUrl(input, 0)
      case Some(i) => input[i..RunEnd(input, i + |UrlMarker|)]
      case None => input
  }

  /** `extractId` returning the ID captured after `spreadsheets/d/` (`idMatch[1]`). */
  function ExtractIdIntended(input: string): string {
    match FindLongRun(input, 0)
    case Some(i) => input[i..RunEnd(input, i)]
    case None =>
      match FindUrl(input, 0)
      case Some(i) => input[i + |UrlMarker|..RunEnd(input, i + |UrlMarker|)]
      case None => input
  }

  /** `i` is the leftmost start of a run of at least 44 ID characters. */
  ghost predicate LeftmostLongRun(s: string, i: nat) {
    LongRunAt(s, i) && forall k :: 0 <= k < i ==> !LongRunAt(s, k)
  }

  ghost predicate NoLongRun(s: string) {
    forall k :: 0 <= k <= |s| ==> !LongRunAt(s, k)
  }

  ghost predicate LeftmostUrl(s: string, i: nat) {
    UrlAt(s, i) && forall k :: 0 <= k < i ==> !UrlAt(s, k)
  }

  ghost predicate NoUrl(s: string) {
    forall k :: 0 <= k <= |s| ==> !UrlAt(s, k)
  }

  /**
    With a run of 44 or more ID characters in the input, `extractId` returns the leftmost
    such run, whole: it is at least 44 long and cannot be extended at either end.
  */
  lemma ExtractIdFindsLongRun(s: string, i: nat)
    requires LeftmostLongRun(s, i)
    ensures var e := RunEnd(s, i);
      && ExtractId(s) == s[i..e] && ExtractIdIntended(s) == s[i..e]
      && e - i >= MinIdLength && AllIdChars(s, i, e)
      && (i == 0 || !IsIdChar(s[i - 1]))
      && (e == |s| || !IsIdChar(s[e]))
  {
    var r := FindLongRun(s, 0);
    assert r == Some(i);
    if i > 0 {
      RunStartsAfterNonIdChar(s, i);
    }
    RunEndLength(s, i);
  }

  /** A run of 44 that does not also start one place earlier is preceded by a non-ID character. */
  lemma RunStartsAfterNonIdChar(s: string, i: nat)
    requires i > 0 && LongRunAt(s, i) && !LongRunAt(s, i - 1)
    ensures !IsIdChar(s[i - 1])
  {
  }

  lemma {:induction false} RunEndLength(s: string, i: nat)
    requires LongRunAt(s, i)
    ensures RunEnd(s, i) >= i + MinIdLength
  {
    RunEndPast(s, i, i + MinIdLength);
  }

  /** A run that is all ID characters up to `j` ends at `j` or later. */
  lemma {:induction false} RunEndPast(s: string, i: nat, j: nat)
    requires i <= j <= |s| && AllIdChars(s, i, j)
    ensures RunEnd(s, i) >= j
    decreases j - i
  {
    if i < j {
      RunEndPast(s, i + 1, j);
    }
  }

  /**
    Without a long run, a link containing `spreadsheets/d/<id>` yields the whole matched text,
    marker included; the intended variant yields `<id>` alone.
  */
  lemma ExtractIdFindsUrl(s: string, i: nat)
    requires NoLongRun(s)
    requires LeftmostUrl(s, i)
    ensures var e := RunEnd(s, i + |UrlMarker|);
      && ExtractId(s) == s[i..e]
      && ExtractId(s) == UrlMarker + ExtractIdIntended(s)
      && ExtractIdIntended(s) == s[i + |UrlMarker|..e]
      && |ExtractIdIntended(s)| >= 1 && AllIdChars(s, i + |UrlMarker|, e)
      && (e == |s| || !IsIdChar(s[e]))
  {
    var r := FindUrl(s, 0);
    assert r == Some(i);
    var e := RunEnd(s, i + |UrlMarker|);
    assert s[i..e] == s[i..i + |UrlMarker|] + s[i + |UrlMarker|..e];
  }

  /** An input that neither expression matches is returned unchanged. */
  lemma ExtractIdFallsBack(s: string)
    requires NoLongRun(s)
    requires NoUrl(s)
    ensures ExtractId(s) == s && ExtractIdIntended(s) == s
  {
  }

  /** Every input falls under exactly one of the three lemmas above. */
  lemma ExtractIdCases(s: string)
    ensures (exists i: nat :: LeftmostLongRun(s, i))
         || (NoLongRun(s) && exists i: nat :: LeftmostUrl(s, i))
         || (NoLongRun(s) && NoUrl(s))
  {
    match FindLongRun(s, 0)
    case Some(i) => assert LeftmostLongRun(s, i);
    case None =>
      match FindUrl(s, 0)
      case Some(i) => assert LeftmostUrl(s, i);
      case None =>
  }

  const SheetHost: string := "https://docs.google.com/"
  const SheetUrlPrefix: string := SheetHost + UrlMarker
  const SheetUrlSuffix: string := "/edit"

  /** The link a spreadsheet's "Share" dialog gives for the ID `id`. */
  function ShareLink(id: string): string {
    SheetUrlPrefix + id + SheetUrlSuffix
  }

  /** A full-length (44 or more characters) ID is found both bare and inside its share link. */
  lemma ExtractIdOfLongId(id: string)
    requires |id| >= MinIdLength && AllIdChars(id, 0, |id|)
    ensures ExtractId(id) == id && ExtractIdIntended(id) == id
    ensures ExtractId(ShareLink(id)) == id && ExtractIdIntended(ShareLink(id)) == id
  {
    assert LeftmostLongRun(id, 0);
    ExtractIdFindsLongRun(id, 0);
    var s := ShareLink(id);
    var p := |SheetUrlPrefix|;
    IdIsLeftmostRunOfLink(id);
    ExtractIdFindsLongRun(s, p);
    assert RunEnd(s, p) == p + |id| by {
      assert s[p + |id|] == '/';
      RunEndPast(s, p, p + |id|);
    }
  }

  /** In a share link, the first long run of ID characters is the ID. */
  lemma IdIsLeftmostRunOfLink(id: string)
    requires |id| >= MinIdLength && AllIdChars(id, 0, |id|)
    ensures LeftmostLongRun(ShareLink(id), |SheetUrlPrefix|)
  {
    var s := ShareLink(id);
    var p := |SheetUrlPrefix|;
    assert s[p - 1] == '/';
    assert s[p..p + |id|] == id;
    assert LongRunAt(s, p);
    forall k | 0 <= k < p ensures !LongRunAt(s, k) {
      if k + MinIdLength <= |s| {
        assert !IsIdChar(s[p - 1]);
      }
    }
  }

  /** The path of a share link, as pasted without its host. */
  function PathLink(id: string): string {
    UrlMarker + id + SheetUrlSuffix
  }

  /**
    Every ID shorter than 44 characters is found in its link by its `spreadsheets/d/` prefix:
    the intended variant returns the ID, `extractId` as written returns it with the marker.
  */
  lemma ExtractIdOfShortId(id: string)
    requires 1 <= |id| < MinIdLength && AllIdChars(id, 0, |id|)
    ensures ExtractIdIntended(PathLink(id)) == id
    ensures ExtractId(PathLink(id)) == UrlMarker + id
  {
    var s := PathLink(id);
    var p := |UrlMarker|;
    assert s[..p] == UrlMarker && s[p..p + |id|] == id;
    assert !IsIdChar(s[p - 1]) && !IsIdChar(s[p + |id|]);
    forall k | 0 <= k <= |s| ensures !LongRunAt(s, k) {
      if k + MinIdLength <= |s| {
        if k < p {
          assert k <= p - 1 < k + MinIdLength;
        } else {
          assert k <= p + |id| < k + MinIdLength;
        }
      }
    }
    assert UrlAt(s, 0) by {
      assert s[p] == id[0];
    }
    assert LeftmostUrl(s, 0);
    ExtractIdFindsUrl(s, 0);
    assert RunEnd(s, p) == p + |id| by {
      RunEndPast(s, p, p + |id|);
    }
  }

  /**
    A bare ID shorter than 44 characters matches neither expression, so both versions return
    it unchanged: the two differ only on links.
  */
  lemma ExtractIdOfShortBareId(id: string)
    requires 1 <= |id| < MinIdLength && AllIdChars(id, 0, |id|)
    ensures ExtractId(id) == id && ExtractIdIntended(id) == id
  {
    forall k | 0 <= k <= |id| ensures !UrlAt(id, k) {
      if k + |UrlMarker| < |id| {
        // the marker has a `/` where the ID has an ID character
        assert id[k..k + |UrlMarker|][12] == id[k + 12];
        assert IsIdChar(id[k + 12]) && UrlMarker[12] == '/';
      }
    }
    ExtractIdFallsBack(id);
  }

  /**
    In the full share link too, an ID shorter than 44 characters is found by its
    `spreadsheets/d/` prefix: the intended variant returns the ID, `extractId` as written
    returns it with the marker.
  */
  lemma ExtractIdOfShortIdInShareLink(id: string)
    requires 1 <= |id| < MinIdLength && AllIdChars(id, 0, |id|)
    ensures ExtractIdIntended(ShareLink(id)) == id
    ensures ExtractId(ShareLink(id)) == UrlMarker + id
  {
    var s := ShareLink(id);
    var p := |SheetUrlPrefix|;
    var u := |SheetHost|;
    assert s[..u] == SheetHost;
    assert s[..p] == SheetUrlPrefix && s[p..p + |id|] == id;
    assert !IsIdChar(s[p - 1]) && !IsIdChar(s[p + |id|]);
    forall k | 0 <= k <= |s| ensures !LongRunAt(s, k) {
      if k + MinIdLength <= |s| {
        if k < p {
          assert k <= p - 1 < k + MinIdLength;
        } else {
          assert k <= p + |id| < k + MinIdLength;
        }
      }
    }
    forall k | 0 <= k < u ensures !UrlAt(s, k) {
      HostHasNoMarkerStart(k);
      assert s[k] == SheetHost[k];
      if k + 1 < u {
        assert s[k + 1] == SheetHost[k + 1];
      }
      assert UrlMarker[0] == 's' && UrlMarker[1] == 'p';
    }
    assert UrlAt(s, u) by {
      assert s[u..p] == UrlMarker;
      assert s[p] == id[0];
    }
    assert LeftmostUrl(s, u);
    ExtractIdFindsUrl(s, u);
    assert RunEnd(s, p) == p + |id| by {
      RunEndPast(s, p, p + |id|);
    }
  }

  /** The host part of a share link holds no `sp`, the first two letters of the marker. */
  lemma HostHasNoMarkerStart(k: nat)
    requires k < |SheetHost|
    ensures SheetHost[k] != 's' || (k + 1 < |SheetHost| && SheetHost[k + 1] != 'p')
  {
  }

  /** A link with a short ID: the path of a share link, as pasted without its host. */
  const ShortIdLink: string := "spreadsheets/d/abc/edit"

  /** Where the two searches stop on `ShortIdLink`. */
  lemma ShortLinkSearch()
    ensures FindLongRun(ShortIdLink, 0) == None
    ensures FindUrl(ShortIdLink, 0) == Some(0)
    ensures RunEnd(ShortIdLink, |UrlMarker|) == 18
  {
    assert ShortIdLink[..|UrlMarker|] == UrlMarker;
    assert ShortIdLink[18] == '/';
  }

  /** `extractId` on the hostless link with a short ID: the `spreadsheets/d/` marker stays in the result. */
  lemma ExtractIdKeepsMarker()
    ensures ExtractId(ShortIdLink) == "spreadsheets/d/abc"
    ensures ExtractId("abc") == "abc"
  {
    ShortLinkSearch();
  }

  /** The intended variant finds a short ID in the hostless link. */
  lemma ExtractIdIntendedOfShortId()
    ensures ExtractIdIntended(ShortIdLink) == "abc"
    ensures ExtractIdIntended("abc") == "abc"
  {
    ShortLinkSearch();
  }
}
