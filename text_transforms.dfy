/** The bug-reference and issue-key text transforms of the sprint report:
    pulling the Launchpad bug number out of an issue summary, turning that
    reference into a Markdown link, and turning an issue key into a
    Markdown link to the tracker. */
module TextTransforms {
  import opened Wrappers
  import opened Text

  /** The token that introduces a Launchpad bug reference. */
  const Marker: string := "LP#"

  /** Base of the short Launchpad bug URL. */
  const BugServer: string := "https://pad.lv/"

  predicate IsDigit(c: char)
  {
    '0' <= c <= '9'
  }

  predicate AllDigits(s: string)
  {
    forall k :: 0 <= k < |s| ==> IsDigit(s[k])
  }

  /** The longest run of digits at the front of s. */
  function DigitRun(s: string): (d: string)
    ensures |d| <= |s| && d == s[..|d|]
    ensures AllDigits(d)
    ensures |d| < |s| ==> !IsDigit(s[|d|])
  {
    if s == [] || !IsDigit(s[0]) then [] else [s[0]] + DigitRun(s[1..])
  }

  /** The bug number of a summary: the digits right after its first
      "LP#", or the empty string when there is no "LP#". */
  function BugId(summary: string): (id: string)
    ensures !Contains(summary, Marker) ==> id == []
    ensures AllDigits(id)
    ensures Contains(summary, Marker) ==>
      var i := Find(summary, Marker).value;
      && OccursAt(summary, Reference(id), i)
      && (i + |Marker| + |id| < |summary| ==> !IsDigit(summary[i + |Marker| + |id|]))
  {
    match Find(summary, Marker)
    case None => []
    case Some(i) =>
      var id := DigitRun(summary[i + |Marker|..]);
      assert summary[i..i + |Marker| + |id|] == summary[i..i + |Marker|] + summary[i + |Marker|..][..|id|];
      id
  }

  /** get_bug_id: walks the characters after the first "LP#", appending
      digits until the first non-digit. */
  method GetBugId(summary: string) returns (id: string)
    ensures id == BugId(summary)
  {
    id := "";
    var found := Find(summary, Marker);
    if found.Some? {
      var rest := summary[found.value + |Marker|..];
      var k := 0;
      while k < |rest|
        invariant 0 <= k <= |rest|
        invariant DigitRun(rest) == id + DigitRun(rest[k..])
      {
        if IsDigit(rest[k]) {
          assert rest[k..][1..] == rest[k + 1..];
          id := id + [rest[k]];
          k := k + 1;
        } else {
          break;
        }
      }
      assert k == |rest| ==> rest[k..] == [];
    }
  }

  /** A token not starting with "LP#" comes after a prefix that holds no
      "LP#": the marker cannot straddle the boundary. */
  lemma MarkerAfterPrefix(pre: string, rest: string)
    requires !Contains(pre, Marker)
    requires |rest| >= |Marker| && rest[..|Marker|] == Marker
    ensures Find(pre + rest, Marker) == Some(|pre|)
  {
    var s := pre + rest;
    assert s[|pre|..|pre| + |Marker|] == rest[..|Marker|];
    forall j: nat | j < |pre| ensures !OccursAt(s, Marker, j) {
      if j + |Marker| <= |pre| {
        assert s[j..j + |Marker|] == pre[j..j + |Marker|];
        assert !OccursAt(pre, Marker, j);
      } else {
        // an occurrence here would have to end inside the marker itself
        var w := s[j..j + |Marker|];
        assert w[|pre| - j] == s[|pre|] == 'L';
        assert Marker[|pre| - j] != 'L';
      }
    }
    FindIs(s, Marker, |pre|);
  }

  /** The bug number of "…LP#<digits><non-digit>…" is those digits, when
      the text before the marker holds no other "LP#". */
  lemma BugIdOfReference(pre: string, digits: string, post: string)
    requires !Contains(pre, Marker)
    requires AllDigits(digits)
    requires post == [] || !IsDigit(post[0])
    ensures BugId(pre + Marker + digits + post) == digits
  {
    var s := pre + Marker + digits + post;
    assert s == pre + (Marker + digits + post);
    MarkerAfterPrefix(pre, Marker + digits + post);
    var rest := s[|pre| + |Marker|..];
    assert rest == digits + post;
    DigitRunOfDigits(digits, post);
  }

  lemma {:induction false} DigitRunOfDigits(digits: string, post: string)
    requires AllDigits(digits)
    requires post == [] || !IsDigit(post[0])
    ensures DigitRun(digits + post) == digits
  {
    if digits != [] {
      assert (digits + post)[1..] == digits[1..] + post;
      DigitRunOfDigits(digits[1..], post);
    } else {
      assert digits + post == post;
    }
  }

  /** The Markdown link template "[{}]({})". */
  function MdLink(text: string, url: string): string
  {
    "[" + text + "](" + url + ")"
  }

  /** Splits "[text](url)" into its text and url; the text ends at the
      first "](". */
  function ParseMdLink(s: string): Option<(string, string)>
  {
    if |s| < 2 || s[0] != '[' || s[|s| - 1] != ')' then None
    else match Find(s, "](")
      case None => None
      case Some(i) =>
        if 1 <= i && i + 2 <= |s| - 1 then Some((s[1..i], s[i + 2..|s| - 1])) else None
  }

  /** A link whose text holds no ']' parses back to its text and url. */
  lemma MdLinkRoundTrip(text: string, url: string)
    requires forall k :: 0 <= k < |text| ==> text[k] != ']'
    ensures ParseMdLink(MdLink(text, url)) == Some((text, url))
  {
    var s := MdLink(text, url);
    var i := 1 + |text|;
    assert s[i..i + 2] == "](";
    forall j: nat | j < i ensures !OccursAt(s, "](", j) {
      if j == 0 {
        assert s[0] == '[';
      } else {
        assert s[j] == text[j - 1];
      }
    }
    FindIs(s, "](", i);
    assert s[1..i] == text;
    assert s[i + 2..|s| - 1] == url;
  }

  /** key_to_md: a Markdown link from an issue key to its page on the
      tracker server. */
  function KeyToMd(server: string, key: string): (link: string)
    ensures link == "[" + key + "](" + server + "/browse/" + key + ")"
  {
    MdLink(key, server + "/browse/" + key)
  }

  /** The key link shows the key and points at server/browse/key. */
  lemma KeyToMdRoundTrip(server: string, key: string)
    requires forall k :: 0 <= k < |key| ==> key[k] != ']'
    ensures ParseMdLink(KeyToMd(server, key)) == Some((key, server + "/browse/" + key))
  {
    MdLinkRoundTrip(key, server + "/browse/" + key);
  }

  /** The bug reference "LP#<id>". */
  function Reference(id: string): string
  {
    Marker + id
  }

  /** The Markdown link that replaces "LP#<id>". */
  function BugLink(id: string): string
  {
    MdLink(Reference(id), BugServer + id)
  }

  /** The bug link shows "LP#<id>" and points at https://pad.lv/<id>. */
  lemma BugLinkRoundTrip(id: string)
    requires AllDigits(id)
    ensures ParseMdLink(BugLink(id)) == Some((Reference(id), BugServer + id))
  {
    var text := Reference(id);
    forall k | 0 <= k < |text| ensures text[k] != ']' {
      if k >= |Marker| {
        assert text[k] == id[k - |Marker|];
      }
    }
    MdLinkRoundTrip(text, BugServer + id);
  }

  /** insert_bug_link: every occurrence of "LP#<id>" (id is the bug
      number of the text) replaced by its Markdown link. */
  function InsertBugLink(text: string): string
  {
    var id := BugId(text);
    ReplaceAll(text, Reference(id), BugLink(id))
  }

  /** Without a bug reference the text comes back unchanged. */
  lemma InsertBugLinkNoMarker(text: string)
    requires !Contains(text, Marker)
    ensures InsertBugLink(text) == text
  {
    assert Reference(BugId(text)) == Marker;
    ReplaceAllAbsent(text, Marker, BugLink(BugId(text)));
  }

  /** With a bug reference whose first "LP#" is at i, whose bug number is
      id and whose link is r, the text before i is kept, the first reference
      becomes r, and every later occurrence of the same "LP#<id>" is replaced
      in turn. */
  lemma InsertBugLinkFirstReference(text: string, i: nat, id: string, r: string)
    requires Find(text, Marker) == Some(i) && id == BugId(text) && r == BugLink(id)
    ensures i + |Reference(id)| <= |text|
    ensures InsertBugLink(text)
      == text[..i] + (r + ReplaceFrom(text, Reference(id), r, i + |Reference(id)|))
  {
    FindIs(text, Marker, i);
    ReplaceAllFirst(text, Marker, id, Reference(id), r, i);
  }

  /** Outside the links, no "LP#<id>" is left: the result is the text cut
      at every occurrence of "LP#<id>", with the link r (for id, the bug
      number) put between the pieces, and no piece holds "LP#<id>". */
  lemma InsertBugLinkOutsideLinks(text: string, id: string, r: string)
    requires id == BugId(text) && r == BugLink(id)
    ensures InsertBugLink(text) == Join(Split(text, Reference(id)), r)
    ensures forall j :: 0 <= j < |Split(text, Reference(id))| ==>
      !Contains(Split(text, Reference(id))[j], Reference(id))
  {
    ReplaceAllIsJoin(text, Reference(id), r);
  }

  /** With a bug reference, the result holds "[LP#<id>](https://pad.lv/<id>)". */
  lemma InsertBugLinkContainsLink(text: string)
    requires Contains(text, Marker)
    ensures Contains(InsertBugLink(text), BugLink(BugId(text)))
  {
    var i, id := Find(text, Marker).value, BugId(text);
    InsertBugLinkFirstReference(text, i, id, BugLink(id));
    var before, after := text[..i], ReplaceFrom(text, Reference(id), BugLink(id), i + |Reference(id)|);
    assert InsertBugLink(text) == before + (BugLink(id) + after);
    ContainsMiddle(before, BugLink(id), after);
  }
}
