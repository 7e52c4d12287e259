/** HTML stripping as done by `strip_html`: a first left-to-right pass deletes
    every comment `<!-- ... -->` (up to the FIRST `-->` after its opening), a
    second pass deletes every tag `< ... >` (up to the first `>`). A `<` that is
    never closed is ordinary text. */
module Html {
  import opened Values
  import opened Text

  const CommentOpen: string := "<!--"
  const CommentClose: string := "-->"

  /** Deletes every complete comment, scanning from the left. */
  function StripComments(s: string): (r: string)
    ensures IsSubseq(r, s)
    decreases |s|
  {
    if s == [] then []
    else if OccursAt(s, CommentOpen, 0) && IndexOf(s[4..], CommentClose).Some? then
      var j := 4 + IndexOf(s[4..], CommentClose).value + 3;
      SubseqOfSuffix(StripComments(s[j..]), s, j);
      StripComments(s[j..])
    else
      SubseqCons(s[0], StripComments(s[1..]), s);
      [s[0]] + StripComments(s[1..])
  }

  /** Deletes every complete tag, scanning from the left. */
  function StripTags(s: string): (r: string)
    ensures IsSubseq(r, s)
    decreases |s|
  {
    if s == [] then []
    else if s[0] == '<' && IndexOf(s[1..], ">").Some? then
      var j := 1 + IndexOf(s[1..], ">").value + 1;
      SubseqOfSuffix(StripTags(s[j..]), s, j);
      StripTags(s[j..])
    else
      SubseqCons(s[0], StripTags(s[1..]), s);
      [s[0]] + StripTags(s[1..])
  }

  /** `strip_html` on text: the comment pass, then the tag pass. The result is
      the input with characters deleted, and no tag-shaped pair is left. */
  function StripHtml(s: string): (r: string)
    ensures IsSubseq(r, s) && |r| <= |s|
    ensures NoTag(r)
  {
    SubseqTransitive(StripTags(StripComments(s)), StripComments(s), s);
    SubseqShorter(StripTags(StripComments(s)), s);
    StripTagsLeavesNoTag(StripComments(s));
    StripTags(StripComments(s))
  }

  /** No `<` is followed, anywhere later, by a `>`. */
  predicate NoTag(r: string)
  {
    forall i, j :: 0 <= i < j < |r| ==> !(r[i] == '<' && r[j] == '>')
  }

  /** Stripping only deletes: every character left was in the input. */
  lemma StripTagsKeepsOnlyInput(s: string)
    ensures forall c :: c in StripTags(s) ==> c in s
  {
    SubseqElements(StripTags(s), s);
  }

  lemma NoCloseWithoutMatch(s: string)
    requires IndexOf(s, ">").None?
    ensures '>' !in s
  {
    forall j | 0 <= j < |s| ensures s[j] != '>' {
      assert !OccursAt(s, ">", j);
      assert s[j..j + 1] == [s[j]];
    }
  }

  /** After the tag pass no `<` is followed by a `>`: whatever pair would
      enclose a tag has been removed. */
  lemma {:induction false} StripTagsLeavesNoTag(s: string)
    ensures NoTag(StripTags(s))
    decreases |s|
  {
    if s != [] {
      if s[0] == '<' && IndexOf(s[1..], ">").Some? {
        var k := IndexOf(s[1..], ">").value;
        StripTagsLeavesNoTag(s[1 + k + 1..]);
      } else {
        StripTagsLeavesNoTag(s[1..]);
        var t := StripTags(s[1..]);
        var r := [s[0]] + t;
        if s[0] == '<' {
          NoCloseWithoutMatch(s[1..]);
          StripTagsKeepsOnlyInput(s[1..]);
          assert '>' !in t;
        }
        forall i, j | 0 <= i < j < |r| ensures !(r[i] == '<' && r[j] == '>') {
          assert r[j] == t[j - 1];
          if i > 0 { assert r[i] == t[i - 1]; }
        }
      }
    }
  }

  /** Text in which no `<` occurs passes the tag pass unchanged. */
  lemma {:induction false} PlainPrefixKeptByTags(t: string, rest: string)
    requires '<' !in t
    ensures StripTags(t + rest) == t + StripTags(rest)
    decreases |t|
  {
    if t == [] {
      assert t + rest == rest;
    } else {
      var s := t + rest;
      assert s[0] == t[0] && s[1..] == t[1..] + rest;
      assert '<' !in t[1..] by {
        assert forall c :: c in t[1..] ==> c in t;
      }
      PlainPrefixKeptByTags(t[1..], rest);
      TagPassKeepsPlainChar(s);
      ConsAssoc(t[0], t[1..], StripTags(rest));
      assert t == [t[0]] + t[1..];
    }
  }

  /** Text in which no `<` occurs passes the comment pass unchanged. */
  lemma {:induction false} PlainPrefixKeptByComments(t: string, rest: string)
    requires '<' !in t
    ensures StripComments(t + rest) == t + StripComments(rest)
    decreases |t|
  {
    if t == [] {
      assert t + rest == rest;
    } else {
      var s := t + rest;
      assert s[0] == t[0] && s[1..] == t[1..] + rest;
      assert '<' !in t[1..] by {
        assert forall c :: c in t[1..] ==> c in t;
      }
      PlainPrefixKeptByComments(t[1..], rest);
      CommentPassKeepsPlainChar(s);
      ConsAssoc(t[0], t[1..], StripComments(rest));
      assert t == [t[0]] + t[1..];
    }
  }

  lemma ConsAssoc(c: char, a: string, b: string)
    ensures [c] + (a + b) == ([c] + a) + b
  {
  }

  lemma TagPassKeepsPlainChar(s: string)
    requires s != [] && s[0] != '<'
    ensures StripTags(s) == [s[0]] + StripTags(s[1..])
  {
  }

  lemma CommentPassKeepsPlainChar(s: string)
    requires s != [] && s[0] != '<'
    ensures StripComments(s) == [s[0]] + StripComments(s[1..])
  {
    assert s[0] != CommentOpen[0];
    assert !OccursAt(s, CommentOpen, 0);
  }

  /** Text holding no comment opening passes the comment pass unchanged. */
  lemma {:induction false} NoCommentKept(s: string)
    requires !Contains(s, CommentOpen)
    ensures StripComments(s) == s
    decreases |s|
  {
    if s != [] {
      assert !OccursAt(s, CommentOpen, 0);
      forall i: nat | i <= |s[1..]| ensures !OccursAt(s[1..], CommentOpen, i) {
        assert !OccursAt(s, CommentOpen, i + 1);
        if i + 4 <= |s[1..]| {
          assert s[1..][i..i + 4] == s[i + 1..i + 1 + 4];
        }
      }
      NoCommentKept(s[1..]);
      assert s == [s[0]] + s[1..];
    }
  }

  /** Text without any `<` is left exactly as it is. */
  lemma PlainTextKept(t: string)
    ensures '<' !in t ==> StripHtml(t) == t
  {
    if '<' !in t {
      PlainPrefixKeptByComments(t, "");
      PlainPrefixKeptByTags(t, "");
      assert t + "" == t;
    }
  }

  /** A tag `<x>` whose body holds no `>` is deleted with its brackets. */
  lemma TagRemoved(x: string, rest: string)
    requires '>' !in x
    ensures StripTags("<" + x + ">" + rest) == StripTags(rest)
  {
    var s := "<" + x + ">" + rest;
    assert s[1..] == x + ">" + rest;
    assert OccursAt(s[1..], ">", |x|);
    var k := IndexOf(s[1..], ">").value;
    assert forall i :: 0 <= i < |x| ==> s[1..][i] == x[i];
    assert s[1..][k..k + 1] == ">";
    assert s[1..][k] == '>';
    assert k == |x|;
    assert s[1 + |x| + 1..] == rest;
  }

  /** A comment `<!--body-->` whose body does not contain `-->` is deleted as a
      whole, whatever the body holds (angle brackets of tags included). */
  lemma CommentRemoved(body: string, rest: string)
    requires !Contains(body, CommentClose)
    ensures StripComments(CommentOpen + body + CommentClose + rest) == StripComments(rest)
  {
    var s := CommentOpen + body + CommentClose + rest;
    var u := s[4..];
    assert u == body + CommentClose + rest;
    assert OccursAt(u, CommentClose, |body|);
    assert OccursAt(s, CommentOpen, 0);
    forall j: nat | j < |body| ensures !OccursAt(u, CommentClose, j) {
      if j + 3 <= |body| {
        assert u[j..j + 3] == body[j..j + 3];
        assert !OccursAt(body, CommentClose, j);
      } else {
        assert u[j + 2] == '-';
      }
    }
    assert IndexOf(u, CommentClose).value == |body|;
    assert s[4 + |body| + 3..] == rest;
  }
}
