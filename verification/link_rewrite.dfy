/** `processContent` of the message bubble: a line of the form
    `[• ]text (http…)` becomes `[• ][text](url)` followed by a newline, so
    that the Markdown renderer shows a link. The regular expression
    `^\s*(•\s*)?(.+?)\s+\((https?:\/\/[^\)]+)\)$` is modelled on one line
    that holds no line terminator, with the search order of a backtracking
    matcher: the leading `\s*` longest first, the bullet tried before going
    without it, its `\s*` longest first, the text shortest first. */
module LinkRewrite {
  import opened Results
  import opened Text

  /** The number of white-space characters `s` starts with. */
  function Spaces(s: string): (n: nat)
    ensures n <= |s|
    ensures forall i :: 0 <= i < n ==> IsSpace(s[i])
    ensures n < |s| ==> !IsSpace(s[n])
  {
    if |s| > 0 && IsSpace(s[0]) then
      var n := Spaces(s[1..]);
      assert forall i :: 1 <= i < n + 1 ==> s[i] == s[1..][i - 1];
      1 + n
    else 0
  }

  /** What the capture group `https?:\/\/[^\)]+` accepts. */
  predicate IsUrl(u: string) {
    && ')' !in u
    && ((StartsWith(u, "https://") && |u| > 8) || (StartsWith(u, "http://") && |u| > 7))
  }

  /** The part of the pattern after the text, `\s+\((url)\)$`, matched
      against the rest `r` of the line: the link when `r` has that shape. */
  function LinkTail(r: string): (o: Option<string>)
    ensures o.Some? ==> IsUrl(o.value)
    ensures o.Some? ==> 0 < Spaces(r) && r == r[..Spaces(r)] + "(" + o.value + ")"
  {
    var w := Spaces(r);
    if w == 0 || w >= |r| || r[w] != '(' then None
    else
      var rest := r[w + 1..];
      if |rest| == 0 || rest[|rest| - 1] != ')' then None
      else
        var u := rest[..|rest| - 1];
        if IsUrl(u) then
          assert r == r[..w] + "(" + u + ")";
          Some(u)
        else None
  }

  /** Every line of that shape is recognised, and its link is read back
      whole. */
  lemma LinkTailComplete(ws: string, u: string)
    requires |ws| > 0 && AllSpace(ws) && IsUrl(u)
    ensures LinkTail(ws + "(" + u + ")") == Some(u)
  {
    var r := ws + "(" + u + ")";
    SpacesOf(ws, "(" + u + ")");
    assert r == ws + ("(" + u + ")");
    assert r[|ws|] == '(';
    assert r[|ws| + 1..] == u + ")";
    assert (u + ")")[..|u|] == u;
  }

  /** The white space at the head of `ws + t` is `ws` when `t` does not
      start with white space. */
  lemma {:induction false} SpacesOf(ws: string, t: string)
    requires AllSpace(ws)
    requires |t| > 0 && !IsSpace(t[0])
    ensures Spaces(ws + t) == |ws|
  {
    if |ws| > 0 {
      SpacesOf(ws[1..], t);
      assert (ws + t)[1..] == ws[1..] + t;
    }
  }

  /** One more white-space character in front of a link tail is still a
      link tail. */
  lemma LinkTailExtend(c: char, r: string)
    requires IsSpace(c) && LinkTail(r).Some?
    ensures LinkTail([c] + r) == LinkTail(r)
  {
    var w := Spaces(r);
    var u := LinkTail(r).value;
    PrependSpace(c, r, w, u);
    LinkTailComplete([c] + r[..w], u);
  }

  lemma PrependSpace(c: char, r: string, w: nat, u: string)
    requires IsSpace(c) && w <= |r| && forall i :: 0 <= i < w ==> IsSpace(r[i])
    requires r == r[..w] + "(" + u + ")"
    ensures AllSpace([c] + r[..w]) && [c] + r == ([c] + r[..w]) + "(" + u + ")"
  {
    assert forall i :: 1 <= i < w + 1 ==> ([c] + r[..w])[i] == r[i - 1];
  }

  /** Contrapositive of `LinkTailExtend`. */
  lemma NoLongerTail(c: char, r: string)
    requires LinkTail([c] + r).None? && LinkTail(r).Some?
    ensures !IsSpace(c)
  {
    if IsSpace(c) {
      LinkTailExtend(c, r);
    }
  }

  /** The shortest text: the least end `e` in `[k, |line|]` after which the
      rest of the line is a link tail. */
  function FirstEnd(line: string, k: nat): (r: Option<nat>)
    ensures r.Some? ==> k <= r.value <= |line| && LinkTail(line[r.value..]).Some?
    ensures forall j :: k <= j <= |line| && (r.None? || j < r.value) ==> LinkTail(line[j..]).None?
    decreases |line| + 1 - k
  {
    if k > |line| then None
    else if LinkTail(line[k..]).Some? then Some(k)
    else FirstEnd(line, k + 1)
  }

  /** A match: the line is `line[..lead]` (white space), then the bullet
      `line[lead..bulletEnd]` (possibly empty), then the text
      `line[bulletEnd..textEnd]`, then the link tail. */
  datatype Match = Match(lead: nat, bulletEnd: nat, textEnd: nat, url: string)

  predicate IsMatch(line: string, m: Match) {
    && Opening(line, m)
    && LinkTail(line[m.textEnd..]) == Some(m.url)
    && forall j :: m.bulletEnd < j < m.textEnd ==> LinkTail(line[j..]).None?
  }

  /** The white space and the bullet of a match. */
  predicate Opening(line: string, m: Match) {
    && m.lead <= m.bulletEnd < m.textEnd <= |line|
    && (forall i :: 0 <= i < m.lead ==> IsSpace(line[i]))
    && (m.lead == m.bulletEnd || (line[m.lead] == '•' && forall i :: m.lead < i < m.bulletEnd ==> IsSpace(line[i])))
  }

  /** `first` is tried no later than `m`: the matcher tries the longest
      leading white space first and, for each, the longest bullet first. */
  predicate TriedNoLater(first: Match, m: Match) {
    m.lead < first.lead || (m.lead == first.lead && m.bulletEnd <= first.bulletEnd)
  }

  /** Going without the bullet: the leading white space is tried from
      `lead` characters down to none. */
  function TryPlain(line: string, lead: int): (r: Option<Match>)
    requires lead <= Spaces(line)
    ensures r.Some? ==> IsMatch(line, r.value) && r.value.lead == r.value.bulletEnd <= lead
    ensures r.None? ==> lead < 0 || FirstEnd(line, 1).None?
    ensures forall m :: IsMatch(line, m) && m.lead == m.bulletEnd && m.lead <= lead ==>
              r.Some? && m.lead <= r.value.lead
    decreases lead + 1
  {
    if lead < 0 then None
    else
      match FirstEnd(line, lead + 1)
      case Some(e) => Some(Match(lead, lead, e, LinkTail(line[e..]).value))
      case None =>
        if lead == 0 then None
        else
          var r := TryPlain(line, lead - 1);
          if r.None? then
            assert FirstEnd(line, lead).None? by {
              assert FirstEnd(line, lead) == (if LinkTail(line[lead..]).Some? then Some(lead) else FirstEnd(line, lead + 1));
            }
            r
          else r
  }

  /** With the bullet at `lead`: the white space after it is tried from
      `bulletEnd` down to just the bullet. */
  function TryBullet(line: string, lead: nat, bulletEnd: nat): (r: Option<Match>)
    requires lead < bulletEnd <= |line| && line[lead] == '•'
    requires forall i :: 0 <= i < lead ==> IsSpace(line[i])
    requires forall i :: lead < i < bulletEnd ==> IsSpace(line[i])
    ensures r.Some? ==> IsMatch(line, r.value) && r.value.lead == lead < r.value.bulletEnd <= bulletEnd
    ensures forall m :: IsMatch(line, m) && m.lead == lead && lead < m.bulletEnd <= bulletEnd ==>
              r.Some? && m.bulletEnd <= r.value.bulletEnd
    decreases bulletEnd
  {
    match FirstEnd(line, bulletEnd + 1)
    case Some(e) => Some(Match(lead, bulletEnd, e, LinkTail(line[e..]).value))
    case None => if bulletEnd == lead + 1 then None else TryBullet(line, lead, bulletEnd - 1)
  }

  /** The first match in the matcher's search order, if any. */
  function FindMatch(line: string): (r: Option<Match>)
    ensures r.Some? ==> IsMatch(line, r.value)
    ensures r.Some? ==> forall m :: IsMatch(line, m) ==> TriedNoLater(r.value, m)
    ensures r.None? <==> forall j :: 1 <= j <= |line| ==> LinkTail(line[j..]).None?
  {
    var bulleted := TryLeadBullet(line);
    if bulleted.Some? then
      MatchedSomewhere(line, bulleted.value);
      BulletedFirst(line);
      bulleted
    else
      var r := TryPlain(line, Spaces(line));
      if r.Some? then
        MatchedSomewhere(line, r.value);
        PlainFirst(line);
        r
      else r
  }

  /** The bullet right after all the leading white space, with the longest
      white space after it first. */
  function TryLeadBullet(line: string): (r: Option<Match>)
    ensures r.Some? ==> IsMatch(line, r.value) && r.value.lead == Spaces(line) < r.value.bulletEnd
    ensures forall m :: IsMatch(line, m) && m.lead < m.bulletEnd ==> r.Some? && m.bulletEnd <= r.value.bulletEnd
  {
    MatchesWithinReach(line);
    var lead := Spaces(line);
    if lead < |line| && line[lead] == '•' then
      TryBullet(line, lead, lead + 1 + Spaces(line[lead + 1..]))
    else None
  }

  /** A match with a bullet is tried before every other match. */
  lemma BulletedFirst(line: string)
    requires TryLeadBullet(line).Some?
    ensures forall m :: IsMatch(line, m) ==> TriedNoLater(TryLeadBullet(line).value, m)
  {
    MatchesWithinReach(line);
  }

  /** Without a bullet match, the plain match with the longest leading
      white space is tried first. */
  lemma PlainFirst(line: string)
    requires TryLeadBullet(line).None? && TryPlain(line, Spaces(line)).Some?
    ensures forall m :: IsMatch(line, m) ==> TriedNoLater(TryPlain(line, Spaces(line)).value, m)
  {
    MatchesWithinReach(line);
  }

  /** Every match starts within the leading white space, and one with a
      bullet has it right after all of that white space, followed by no
      more white space than there is. */
  lemma MatchesWithinReach(line: string)
    ensures forall m :: IsMatch(line, m) ==> m.lead <= Spaces(line)
    ensures forall m :: IsMatch(line, m) && m.lead < m.bulletEnd ==>
              && m.lead == Spaces(line) < |line| && line[m.lead] == '•'
              && m.bulletEnd <= m.lead + 1 + Spaces(line[m.lead + 1..])
  {
    forall m | IsMatch(line, m)
      ensures m.lead <= Spaces(line)
      ensures m.lead < m.bulletEnd ==>
              && m.lead == Spaces(line) < |line| && line[m.lead] == '•'
              && m.bulletEnd <= m.lead + 1 + Spaces(line[m.lead + 1..])
    {
      MatchWithinReach(line, m);
    }
  }

  lemma MatchWithinReach(line: string, m: Match)
    requires Opening(line, m)
    ensures m.lead <= Spaces(line)
    ensures m.lead < m.bulletEnd ==>
            && m.lead == Spaces(line) < |line| && line[m.lead] == '•'
            && m.bulletEnd <= m.lead + 1 + Spaces(line[m.lead + 1..])
  {
    if m.lead < m.bulletEnd {
      assert !IsSpace('•');
      var t := line[m.lead + 1..];
      assert forall i :: 0 <= i < m.bulletEnd - m.lead - 1 ==> t[i] == line[m.lead + 1 + i];
    }
  }

  /** The match tried first is the one `FindMatch` returns. */
  lemma FindMatchFirst(line: string, m: Match)
    requires IsMatch(line, m)
    requires forall m' :: IsMatch(line, m') ==> TriedNoLater(m, m')
    ensures FindMatch(line) == Some(m)
  {
    MatchedSomewhere(line, m);
    var r := FindMatch(line).value;
    assert TriedNoLater(r, m) && TriedNoLater(m, r);
    SameStartSameMatch(line, m, r);
  }

  /** The lazy text makes a match's end and link follow from where its
      text starts. */
  lemma SameStartSameMatch(line: string, m: Match, m': Match)
    requires IsMatch(line, m) && IsMatch(line, m')
    requires m.lead == m'.lead && m.bulletEnd == m'.bulletEnd
    ensures m == m'
  {
  }

  /** A match puts a link tail after some text, so one exists. */
  lemma MatchedSomewhere(line: string, m: Match)
    requires IsMatch(line, m)
    ensures !forall j :: 1 <= j <= |line| ==> LinkTail(line[j..]).None?
  {
    assert 1 <= m.textEnd <= |line| && LinkTail(line[m.textEnd..]).Some?;
  }

  /** `processContent` on one line: the matched line rewritten as a
      Markdown link, anything else unchanged. */
  function ProcessLine(line: string): string {
    match FindMatch(line)
    case None => line
    case Some(m) => Rewritten(line, m)
  }

  /** The replacement `(bullet || '') + `[${text}](${url})\n``. */
  function Rewritten(line: string, m: Match): string
    requires m.lead <= m.bulletEnd <= m.textEnd <= |line|
  {
    line[m.lead..m.bulletEnd] + "[" + line[m.bulletEnd..m.textEnd] + "](" + m.url + ")\n"
  }

  /** A line is rewritten exactly when some non-empty text is followed by
      white space and a parenthesised http(s) link that ends the line. */
  lemma ProcessLineChanges(line: string)
    requires NoLineTerminator(line)
    ensures ProcessLine(line) != line <==> exists j :: 1 <= j <= |line| && LinkTail(line[j..]).Some?
  {
    match FindMatch(line)
    case None =>
    case Some(m) =>
      var r := Rewritten(line, m);
      assert r[|r| - 1] == '\n';
      assert |line| == 0 || line[|line| - 1] != '\n';
      assert 1 <= m.textEnd <= |line| && LinkTail(line[m.textEnd..]).Some?;
  }

  /** A rewritten line: the match tried first, rewritten as its bullet
      (when it has one), then the text and the link, then a newline; the
      white space before the match is gone, and the link starts with
      http:// or https:// and holds no ')'. */
  lemma ProcessLineShape(line: string)
    requires FindMatch(line).Some?
    ensures forall m' :: IsMatch(line, m') ==> TriedNoLater(FindMatch(line).value, m')
    ensures var m := FindMatch(line).value;
      var bullet := line[m.lead..m.bulletEnd];
      var text := line[m.bulletEnd..m.textEnd];
      && line == line[..m.lead] + bullet + text + line[m.textEnd..]
      && AllSpace(line[..m.lead])
      && (bullet == "" || bullet[0] == '•')
      && |text| >= 1
      && IsUrl(m.url)
      && ProcessLine(line) == bullet + "[" + text + "](" + m.url + ")\n"
  {
    var m := FindMatch(line).value;
    MatchShape(line, m);
  }

  /** When the line can be matched with its bullet, the rewrite keeps the
      bullet and drops all of the leading white space. */
  lemma BulletKept(line: string, m: Match)
    requires IsMatch(line, m) && m.lead < m.bulletEnd
    ensures FindMatch(line).Some?
    ensures var r := FindMatch(line).value;
            && r.lead == Spaces(line) && r.lead < r.bulletEnd
            && StartsWith(ProcessLine(line), line[r.lead..r.bulletEnd])
            && ProcessLine(line)[0] == '•'
  {
    MatchedSomewhere(line, m);
    MatchesWithinReach(line);
    var r := FindMatch(line).value;
    assert TriedNoLater(r, m);
    RewrittenMatch(line);
    RewrittenParts(line, r);
  }

  /** The rewrite opens with the bullet. */
  lemma RewrittenParts(line: string, m: Match)
    requires m.lead <= m.bulletEnd <= m.textEnd <= |line|
    ensures StartsWith(Rewritten(line, m), line[m.lead..m.bulletEnd])
  {
    var b := line[m.lead..m.bulletEnd];
    var rest := "[" + line[m.bulletEnd..m.textEnd] + "](" + m.url + ")\n";
    assert Rewritten(line, m) == b + rest;
    assert (b + rest)[..|b|] == b;
  }

  /** A matched line is rewritten from the match `FindMatch` picks. */
  lemma RewrittenMatch(line: string)
    requires FindMatch(line).Some?
    ensures ProcessLine(line) == Rewritten(line, FindMatch(line).value)
  {
  }

  /** "• a (http://x)" keeps its bullet: it becomes "• [a](http://x)" and a
      newline. */
  lemma BulletLine(l: string)
    requires l == "• a (http://x)"
    ensures FindMatch(l) == Some(Match(0, 2, 3, "http://x"))
    ensures ProcessLine(l) == "• [a](http://x)\n"
  {
    BulletLineMatch(l);
    RewrittenMatch(l);
    RewrittenBulletLine(l);
  }

  /** The bullet, one space, "a", then the tail: the match with the bullet
      and all its white space is tried first. */
  lemma BulletLineMatch(l: string)
    requires l == "• a (http://x)"
    ensures FindMatch(l) == Some(Match(0, 2, 3, "http://x"))
  {
    var m := Match(0, 2, 3, "http://x");
    BulletLineIsMatch(l);
    BulletLineFirst(l);
    FindMatchFirst(l, m);
  }

  /** No match of "• a (http://x)" starts later or has a longer bullet. */
  lemma BulletLineFirst(l: string)
    requires l == "• a (http://x)"
    ensures forall m' :: IsMatch(l, m') ==> TriedNoLater(Match(0, 2, 3, "http://x"), m')
  {
    forall m' | IsMatch(l, m') ensures TriedNoLater(Match(0, 2, 3, "http://x"), m') {
      BulletLineOpening(l, m');
    }
  }

  lemma BulletLineOpening(l: string, m: Match)
    requires l == "• a (http://x)" && Opening(l, m)
    ensures m.lead == 0 && m.bulletEnd <= 2
  {
    assert !IsSpace(l[0]) && !IsSpace(l[2]);
  }

  lemma BulletLineIsMatch(l: string)
    requires l == "• a (http://x)"
    ensures IsMatch(l, Match(0, 2, 3, "http://x"))
  {
    BulletLineTail(l);
    assert l[0] == '•' && IsSpace(l[1]);
  }

  lemma BulletLineTail(l: string)
    requires l == "• a (http://x)"
    ensures LinkTail(l[3..]) == Some("http://x")
  {
    LinkTailComplete(" ", "http://x");
    assert l[3..] == " " + "(" + "http://x" + ")";
  }

  lemma RewrittenBulletLine(l: string)
    requires l == "• a (http://x)"
    ensures Rewritten(l, Match(0, 2, 3, "http://x")) == "• [a](http://x)\n"
  {
    assert l[0..2] == "• " && l[2..3] == "a";
  }

  lemma MatchShape(line: string, m: Match)
    requires IsMatch(line, m)
    ensures var bullet := line[m.lead..m.bulletEnd];
      var text := line[m.bulletEnd..m.textEnd];
      && line == line[..m.lead] + bullet + text + line[m.textEnd..]
      && AllSpace(line[..m.lead])
      && (bullet == "" || bullet[0] == '•')
      && |text| >= 1
      && IsUrl(m.url)
  {
    Pieces(line, m.lead, m.bulletEnd, m.textEnd);
    assert AllSpace(line[..m.lead]) by {
      assert forall i :: 0 <= i < m.lead ==> line[..m.lead][i] == line[i];
    }
  }

  lemma Pieces(s: string, a: nat, b: nat, c: nat)
    requires a <= b <= c <= |s|
    ensures s == s[..a] + s[a..b] + s[b..c] + s[c..]
  {
    assert s[..a] + s[a..b] == s[..b];
    assert s[..b] + s[b..c] == s[..c];
    assert s[..c] + s[c..] == s;
  }

  /** The text, when longer than one character, does not end in white
      space. */
  predicate EndsClean(line: string, m: Match) {
    m.bulletEnd + 2 <= m.textEnd <= |line| ==> !IsSpace(line[m.textEnd - 1])
  }

  /** Because the text is taken as short as possible, it can end in white
      space only when it is a single character. */
  lemma TextEndsClean(line: string)
    requires FindMatch(line).Some?
    ensures EndsClean(line, FindMatch(line).value)
  {
    MatchEndsClean(line, FindMatch(line).value);
  }

  lemma MatchEndsClean(line: string, m: Match)
    requires IsMatch(line, m)
    ensures EndsClean(line, m)
  {
    var e := m.textEnd;
    if e - m.bulletEnd >= 2 {
      assert line[e - 1..] == [line[e - 1]] + line[e..];
      NoLongerTail(line[e - 1], line[e..]);
    }
  }

  /** The bubble shows user messages as typed and rewrites the
      assistant's. */
  function BubbleText(isUser: bool, content: string): (r: string)
    requires NoLineTerminator(content)
    ensures isUser ==> r == content
    ensures !isUser ==> r == ProcessLine(content)
    ensures !isUser ==> (r != content <==> exists j :: 1 <= j <= |content| && LinkTail(content[j..]).Some?)
  {
    ProcessLineChanges(content);
    if isUser then content else ProcessLine(content)
  }

  // ------------------------------------------------------------- example

  /** No link tail starts where no white space follows. */
  lemma {:induction false} FirstEndNoSpace(line: string, k: nat)
    requires forall i :: k <= i < |line| ==> !IsSpace(line[i])
    ensures FirstEnd(line, k).None?
    decreases |line| + 1 - k
  {
    if k <= |line| {
      if k < |line| {
        assert line[k..][0] == line[k];
      }
      FirstEndNoSpace(line, k + 1);
    }
  }

  lemma SpaceTextEnd(l: string)
    requires l == "  (http://x)"
    ensures FirstEnd(l, 1) == Some(1)
    ensures LinkTail(l[1..]) == Some("http://x")
  {
    LinkTailComplete(" ", "http://x");
    assert l[1..] == " " + "(" + "http://x" + ")";
  }

  lemma SpaceTextMatch(l: string)
    requires l == "  (http://x)"
    ensures FindMatch(l) == Some(Match(0, 0, 1, "http://x"))
  {
    SpaceTextPlain(l);
    assert l[2] != '•';
    FindMatchPlain(l);
  }

  /** A line without a bullet after its leading white space is matched by
      the plain search when that search succeeds. */
  lemma FindMatchPlain(line: string)
    requires !(Spaces(line) < |line| && line[Spaces(line)] == '•')
    requires TryPlain(line, Spaces(line)).Some?
    ensures FindMatch(line) == TryPlain(line, Spaces(line))
  {
  }

  /** Going back from two spaces, the first place a link tail starts is
      after the first space. */
  lemma SpaceTextPlain(l: string)
    requires l == "  (http://x)"
    ensures Spaces(l) == 2 && TryPlain(l, 2) == Some(Match(0, 0, 1, "http://x"))
  {
    assert Spaces(l) == 2 by {
      assert Spaces(l[1..]) == 1;
    }
    assert FirstEnd(l, 2).None? && FirstEnd(l, 3).None? by {
      FirstEndNoSpace(l, 2);
      FirstEndNoSpace(l, 3);
    }
    assert TryPlain(l, 0) == Some(Match(0, 0, 1, "http://x")) by {
      SpaceTextEnd(l);
    }
    assert TryPlain(l, 1) == TryPlain(l, 0);
  }

  /** Going back on the leading white space can leave a text that is a
      single space: "  (http://x)" becomes "[ ](http://x)" and a newline. */
  lemma SpaceText(l: string)
    requires l == "  (http://x)"
    ensures ProcessLine(l) == "[ ](http://x)\n"
  {
    SpaceTextMatch(l);
    RewrittenSpace(l);
  }

  lemma RewrittenSpace(l: string)
    requires l == "  (http://x)"
    ensures Rewritten(l, Match(0, 0, 1, "http://x")) == "[ ](http://x)\n"
  {
    assert l[0..0] == "" && l[0..1] == " ";
  }
}
