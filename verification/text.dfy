/** The string forms the models use for display. */
module Text {
  import opened Results

  /** The prefix of `t` holding at most `n` characters (Python's `t[:n]`). */
  function Truncate(t: string, n: nat): (r: string)
    ensures r <= t
    ensures |r| == if |t| <= n then |t| else n
  {
    if |t| <= n then t else t[..n]
  }

  /** The characters Python's `str.isspace` accepts: the ASCII controls TAB through CR
      and FS through US, the space, NEL, NO-BREAK SPACE, and the Unicode spaces and
      line and paragraph separators. */
  predicate IsSpace(c: char)
  {
    || '\U{0009}' <= c <= '\U{000D}'
    || '\U{001C}' <= c <= '\U{0020}'
    || c == '\U{0085}' || c == '\U{00A0}' || c == '\U{1680}'
    || '\U{2000}' <= c <= '\U{200A}'
    || c == '\U{2028}' || c == '\U{2029}' || c == '\U{202F}' || c == '\U{205F}' || c == '\U{3000}'
  }

  /** How many whitespace characters `t` starts with. */
  function LeadingSpaces(t: string): (r: nat)
    ensures r <= |t|
    ensures forall i :: 0 <= i < r ==> IsSpace(t[i])
    ensures r < |t| ==> !IsSpace(t[r])
  {
    if |t| == 0 || !IsSpace(t[0]) then 0 else 1 + LeadingSpaces(t[1..])
  }

  /** How many whitespace characters `t` ends with. */
  function TrailingSpaces(t: string): (r: nat)
    ensures r <= |t|
    ensures forall i :: |t| - r <= i < |t| ==> IsSpace(t[i])
    ensures r < |t| ==> !IsSpace(t[|t| - 1 - r])
  {
    if |t| == 0 || !IsSpace(t[|t| - 1]) then 0 else 1 + TrailingSpaces(t[..|t| - 1])
  }

  /** Python's `t.strip()`: `t` without its leading and trailing whitespace. */
  function Strip(t: string): (r: string)
    ensures r == [] <==> forall i :: 0 <= i < |t| ==> IsSpace(t[i])
    ensures r != [] ==> !IsSpace(r[0]) && !IsSpace(r[|r| - 1])
    ensures LeadingSpaces(t) + |r| <= |t|
    ensures r == t[LeadingSpaces(t)..LeadingSpaces(t) + |r|]
    ensures forall i :: LeadingSpaces(t) + |r| <= i < |t| ==> IsSpace(t[i])
  {
    var lead := LeadingSpaces(t);
    if lead == |t| then []
    else
      var trail := TrailingSpaces(t);
      t[lead..|t| - trail]
  }

  /** Stripping a stripped string changes nothing: the cleaned text is stable. */
  lemma StripIdempotent(t: string)
    ensures Strip(Strip(t)) == Strip(t)
  {
    var r := Strip(t);
    if r != [] {
      assert LeadingSpaces(r) == 0;
      assert TrailingSpaces(r) == 0;
    }
  }

  const RelationPrefix: string := "relation: "
  const RelationSeparator: string := " - "

  /** The display form of a follow edge between two usernames. */
  function Relation(user: string, author: string): string
  {
    RelationPrefix + user + RelationSeparator + author
  }

  /** No space in `u`. Usernames admitted by Django's username validator hold no space:
      it allows letters, digits and `@ . + - _` only. */
  predicate NoSpace(u: string)
  {
    forall i :: 0 <= i < |u| ==> u[i] != ' '
  }

  /** The index of the first space in `t`, or `|t|` when there is none. */
  function FirstSpace(t: string): (r: nat)
    ensures r <= |t|
    ensures forall i :: 0 <= i < r ==> t[i] != ' '
    ensures r < |t| ==> t[r] == ' '
  {
    if |t| == 0 || t[0] == ' ' then 0 else 1 + FirstSpace(t[1..])
  }

  /** Reads a follow edge back from its display form. */
  function ParseRelation(s: string): (r: Option<(string, string)>)
    ensures r.Some? ==> NoSpace(r.value.0) && Relation(r.value.0, r.value.1) == s
  {
    var k := |RelationPrefix|;
    if |s| < k || s[..k] != RelationPrefix then None
    else
      var i := FirstSpace(s[k..]);
      var j := i + |RelationSeparator|;
      if j <= |s[k..]| && s[k..][i..j] == RelationSeparator then
        SplitRejoins(s, i);
        Some((s[k..][..i], s[k..][j..]))
      else
        None
  }

  /** A string that starts with `p` is `p` followed by the rest. */
  lemma PrefixThenRest(s: string, p: string)
    requires p <= s
    ensures s == p + s[|p|..]
  {
  }

  /** Cutting `t` at `i`, where `sep` starts, gives the head, `sep` and the remainder. */
  lemma CutAt(t: string, i: nat, sep: string)
    requires i + |sep| <= |t| && t[i..i + |sep|] == sep
    ensures t == t[..i] + sep + t[i + |sep|..]
  {
    assert t == t[..i] + t[i..i + |sep|] + t[i + |sep|..];
  }

  /** Cutting a relation string at its first space after the prefix gives back
      a space-free follower name and the author that print to that string. */
  lemma SplitRejoins(s: string, i: nat)
    requires |RelationPrefix| <= |s| && s[..|RelationPrefix|] == RelationPrefix
    requires i == FirstSpace(s[|RelationPrefix|..])
    requires i + |RelationSeparator| <= |s| - |RelationPrefix|
    requires s[|RelationPrefix|..][i..i + |RelationSeparator|] == RelationSeparator
    ensures NoSpace(s[|RelationPrefix|..][..i])
    ensures Relation(s[|RelationPrefix|..][..i], s[|RelationPrefix|..][i + |RelationSeparator|..]) == s
  {
    var rest := s[|RelationPrefix|..];
    var user, author := rest[..i], rest[i + |RelationSeparator|..];
    PrefixThenRest(s, RelationPrefix);
    CutAt(rest, i, RelationSeparator);
    JoinFour(RelationPrefix, user, RelationSeparator, author);
  }

  /** Concatenation regrouped: `p + u + sep + a` is `p` before the rest. */
  lemma JoinFour(p: string, u: string, sep: string, a: string)
    ensures p + u + sep + a == p + (u + sep + a)
  {
  }

  /** The read-back of a relation string, for whichever follower name it holds. */
  lemma RelationReadsBack(user: string, author: string)
    ensures NoSpace(user) ==> ParseRelation(Relation(user, author)) == Some((user, author))
  {
    if NoSpace(user) {
      ParseRelationInverts(user, author);
    }
  }

  /** The first space of `u + t` is the first of `t` when `u` has none. */
  lemma {:induction false} FirstSpaceSkips(u: string, t: string)
    requires NoSpace(u)
    ensures FirstSpace(u + t) == |u| + FirstSpace(t)
  {
    if |u| > 0 {
      assert (u + t)[0] == u[0];
      assert (u + t)[1..] == u[1..] + t;
      FirstSpaceSkips(u[1..], t);
    } else {
      assert u + t == t;
    }
  }

  /** The pieces of `p + u + sep + a`, read back by position. */
  lemma JoinParts(p: string, u: string, sep: string, a: string)
    ensures var s := p + u + sep + a;
      && |p| <= |s| && s[..|p|] == p
      && s[|p|..] == u + (sep + a)
      && |u| + |sep| <= |s[|p|..]|
      && s[|p|..][..|u|] == u
      && s[|p|..][|u|..|u| + |sep|] == sep
      && s[|p|..][|u| + |sep|..] == a
  {
    var s := p + u + sep + a;
    assert s[|p|..] == u + (sep + a);
  }

  /** Parsing inverts the display form whenever the follower's username has no space. */
  lemma ParseRelationInverts(user: string, author: string)
    requires NoSpace(user)
    ensures ParseRelation(Relation(user, author)) == Some((user, author))
  {
    var s := Relation(user, author);
    var rest := s[|RelationPrefix|..];
    JoinParts(RelationPrefix, user, RelationSeparator, author);
    FirstSpaceSkips(user, RelationSeparator + author);
    assert (RelationSeparator + author)[0] == ' ';
    assert FirstSpace(rest) == |user|;
  }
}
