/** The `validEmail` recogniser: the regular expression
    `^\w+([\.-]?\w+)*@\w+([\.-]?\w+)*(\.\w{2,3})+$`, without flags, written
    as a grammar over the string (one predicate per sub-expression), and a
    characterisation of the strings it accepts. */
module Email {

  /** `\w` without the `u` flag: ASCII letters, digits and underscore. */
  predicate IsWordChar(c: char) {
    ('a' <= c <= 'z') || ('A' <= c <= 'Z') || ('0' <= c <= '9') || c == '_'
  }

  /** `[\.-]` */
  predicate IsSeparator(c: char) {
    c == '.' || c == '-'
  }

  /** `\w+` */
  predicate WordRun(t: string) {
    |t| >= 1 && forall k :: 0 <= k < |t| ==> IsWordChar(t[k])
  }

  /** `[\.-]?\w+` */
  predicate Piece(t: string) {
    WordRun(t) || (|t| >= 2 && IsSeparator(t[0]) && WordRun(t[1..]))
  }

  /** `([\.-]?\w+)*` */
  predicate Pieces(t: string)
    decreases |t|
  {
    t == [] || exists k :: 0 < k <= |t| && Piece(t[..k]) && Pieces(t[k..])
  }

  /** `\w+([\.-]?\w+)*` */
  predicate Words(t: string) {
    exists k :: 0 < k <= |t| && WordRun(t[..k]) && Pieces(t[k..])
  }

  /** `\.\w{2,3}` */
  predicate Suffix(t: string) {
    (|t| == 3 || |t| == 4) && t[0] == '.' && forall k :: 1 <= k < |t| ==> IsWordChar(t[k])
  }

  /** `(\.\w{2,3})+` */
  predicate Suffixes(t: string)
    decreases |t|
  {
    exists k :: 0 < k <= |t| && Suffix(t[..k]) && (k == |t| || Suffixes(t[k..]))
  }

  /** The whole expression, anchored at both ends. */
  predicate ValidEmail(s: string) {
    exists i, j :: 0 <= i < j <= |s| && s[i] == '@' && Words(s[..i]) && Words(s[i + 1..j]) && Suffixes(s[j..])
  }

  // The shape of an accepted string.

  predicate Charset(t: string) {
    forall k :: 0 <= k < |t| ==> IsWordChar(t[k]) || IsSeparator(t[k])
  }

  predicate NoDoubleSeparator(t: string) {
    forall k :: 0 <= k < |t| - 1 ==> !(IsSeparator(t[k]) && IsSeparator(t[k + 1]))
  }

  /** What may follow the first word character of a dotted name. */
  predicate Tail(t: string) {
    t == [] || (Charset(t) && IsWordChar(t[|t| - 1]) && NoDoubleSeparator(t))
  }

  /** Word characters separated by single dots or hyphens, starting and
      ending with a word character. */
  predicate Dotted(t: string) {
    |t| > 0 && IsWordChar(t[0]) && Tail(t)
  }

  /** The last `m` characters are word characters with a dot before them,
      and at least `before` characters precede the dot. */
  predicate TldAt(t: string, m: nat, before: nat) {
    |t| >= m + 1 + before && t[|t| - m - 1] == '.' &&
      forall k :: |t| - m <= k < |t| ==> IsWordChar(t[k])
  }

  /** Ends with a dot and two or three word characters, with something before the dot. */
  predicate EndsWithTld(t: string) {
    TldAt(t, 2, 1) || TldAt(t, 3, 1)
  }

  predicate EmailShape(s: string) {
    exists i :: 0 <= i < |s| && s[i] == '@' && Dotted(s[..i]) && Dotted(s[i + 1..]) && EndsWithTld(s[i + 1..])
  }

  lemma TailConcat(a: string, b: string)
    requires Tail(a) && Tail(b) && a != []
    ensures Tail(a + b)
  {
    var t := a + b;
    if b != [] {
      forall k | 0 <= k < |t| - 1 ensures !(IsSeparator(t[k]) && IsSeparator(t[k + 1])) {
        if k < |a| - 1 {
          assert t[k] == a[k] && t[k + 1] == a[k + 1];
        } else if k == |a| - 1 {
          assert t[k] == a[|a| - 1];
        } else {
          assert t[k] == b[k - |a|] && t[k + 1] == b[k - |a| + 1];
        }
      }
      assert Charset(t) by {
        forall k | 0 <= k < |t| ensures IsWordChar(t[k]) || IsSeparator(t[k]) {
          if k < |a| { assert t[k] == a[k]; } else { assert t[k] == b[k - |a|]; }
        }
      }
    } else {
      assert t == a;
    }
  }

  /** Dropping a prefix of a tail leaves a tail. */
  lemma TailDrop(t: string, k: int)
    requires Tail(t) && 0 <= k <= |t|
    ensures Tail(t[k..])
  {
    var r := t[k..];
    if r != [] {
      assert forall j :: 0 <= j < |r| ==> r[j] == t[j + k];
    }
  }

  lemma PieceTail(t: string)
    requires Piece(t)
    ensures Tail(t) && t != []
  {
    if !WordRun(t) {
      assert forall k :: 1 <= k < |t| ==> t[k] == t[1..][k - 1];
    }
  }

  /** A tail that starts with a separator continues with a word character. */
  lemma SecondIsWord(t: string)
    requires Tail(t) && t != [] && IsSeparator(t[0])
    ensures |t| >= 2 && IsWordChar(t[1])
  {
    assert |t| != 1;
    assert 0 < |t| - 1;
  }

  /** Whatever `([\.-]?\w+)*` matches is the tail of a dotted name. */
  lemma {:induction false} PiecesTail(t: string)
    requires Pieces(t)
    ensures Tail(t)
    decreases |t|
  {
    if t != [] {
      var k :| 0 < k <= |t| && Piece(t[..k]) && Pieces(t[k..]);
      var a, b := t[..k], t[k..];
      PiecesTail(b);
      PieceTail(a);
      TailConcat(a, b);
      assert t == a + b;
    }
  }

  /** Every tail of a dotted name is matched by `([\.-]?\w+)*`: one piece is
      a word character, or a separator and a word character. */
  lemma {:induction false} TailPieces(t: string)
    requires Tail(t)
    ensures Pieces(t)
    decreases |t|
  {
    if t != [] {
      var k: int;
      if IsWordChar(t[0]) {
        k := 1;
        assert WordRun(t[..1]);
      } else {
        SecondIsWord(t);
        k := 2;
        assert t[..2][1..] == [t[1]];
        assert WordRun(t[..2][1..]);
      }
      assert Piece(t[..k]);
      TailDrop(t, k);
      TailPieces(t[k..]);
    }
  }

  /** `\w+([\.-]?\w+)*` matches exactly the dotted names. */
  lemma WordsIff(t: string)
    ensures Words(t) <==> Dotted(t)
  {
    if Words(t) {
      var k :| 0 < k <= |t| && WordRun(t[..k]) && Pieces(t[k..]);
      var a, b := t[..k], t[k..];
      PiecesTail(b);
      assert Tail(a);
      TailConcat(a, b);
      assert t == a + b;
      assert t[0] == a[0];
    }
    if Dotted(t) {
      TailDrop(t, 1);
      TailPieces(t[1..]);
      assert WordRun(t[..1]);
    }
  }

  /** Putting anything in front keeps the ending. */
  lemma TldAtConcat(a: string, b: string, m: nat, before: nat)
    requires TldAt(b, m, before)
    ensures TldAt(a + b, m, before + |a|)
  {
    var t := a + b;
    assert t[|t| - m - 1] == b[|b| - m - 1];
    assert forall k :: |t| - m <= k < |t| ==> t[k] == b[k - |a|];
  }

  /** One `\.\w{2,3}` starts with a dot, is a tail and ends the way the whole does. */
  lemma SuffixShape(h: string)
    requires Suffix(h)
    ensures h[0] == '.' && Tail(h) && (TldAt(h, 2, 0) || TldAt(h, 3, 0))
  {
    assert TldAt(h, |h| - 1, 0);
  }

  /** Every string matched by `(\.\w{2,3})+` starts with a dot, is a tail of
      a dotted name, and ends with a dot and two or three word characters. */
  lemma {:induction false} SuffixesShape(t: string)
    requires Suffixes(t)
    ensures t != [] && t[0] == '.' && Tail(t)
    ensures TldAt(t, 2, 0) || TldAt(t, 3, 0)
    decreases |t|
  {
    var k :| 0 < k <= |t| && Suffix(t[..k]) && (k == |t| || Suffixes(t[k..]));
    var head := t[..k];
    SuffixShape(head);
    assert head[0] == t[0];
    if k == |t| {
      assert head == t;
    } else {
      var rest := t[k..];
      SuffixesShape(rest);
      SuffixesStep(head, rest);
      assert t == head + rest;
    }
  }

  lemma SuffixesStep(head: string, rest: string)
    requires head != [] && Tail(head) && Tail(rest)
    requires TldAt(rest, 2, 0) || TldAt(rest, 3, 0)
    ensures Tail(head + rest) && (TldAt(head + rest, 2, 0) || TldAt(head + rest, 3, 0))
  {
    TailConcat(head, rest);
    if TldAt(rest, 2, 0) {
      TldAtConcat(head, rest, 2, 0);
    } else {
      TldAtConcat(head, rest, 3, 0);
    }
  }

  /** A dotted name cut just before a separator is still a dotted name. */
  lemma DottedPrefix(t: string, j: int)
    requires Dotted(t) && 0 < j < |t| && IsSeparator(t[j])
    ensures Dotted(t[..j])
  {
    var p := t[..j];
    assert 0 <= j - 1 < |t| - 1;
    assert IsWordChar(t[j - 1]);
    assert forall i :: 0 <= i < j ==> p[i] == t[i];
  }

  /** What the domain part `\w+([\.-]?\w+)*(\.\w{2,3})+` matches is a dotted
      name ending with a dot and two or three word characters. */
  lemma DomainShape(t: string, j: int)
    requires 0 <= j <= |t| && Words(t[..j]) && Suffixes(t[j..])
    ensures Dotted(t) && EndsWithTld(t)
  {
    var w, x := t[..j], t[j..];
    WordsIff(w);
    SuffixesShape(x);
    TailConcat(w, x);
    assert t == w + x;
    assert t[0] == w[0];
    if TldAt(x, 2, 0) {
      TldAtConcat(w, x, 2, 0);
    } else {
      TldAtConcat(w, x, 3, 0);
    }
  }

  /** Every dotted name ending with a dot and two or three word characters
      is matched by the domain part, split just before that dot. */
  lemma ShapeDomain(t: string) returns (j: int)
    requires Dotted(t) && EndsWithTld(t)
    ensures 0 <= j <= |t| && Words(t[..j]) && Suffixes(t[j..])
  {
    var m := if TldAt(t, 2, 1) then 2 else 3;
    assert TldAt(t, m, 1);
    j := |t| - m - 1;
    DottedPrefix(t, j);
    WordsIff(t[..j]);
    var x := t[j..];
    assert x[..|x|] == x;
    assert forall k :: 1 <= k < |x| ==> x[k] == t[j + k];
    assert Suffix(x[..|x|]);
  }

  /** What the regular expression accepts has the shape local@domain. */
  lemma ValidEmailShape(s: string, i: int, j: int)
    requires 0 <= i < j <= |s| && s[i] == '@' && Words(s[..i]) && Words(s[i + 1..j]) && Suffixes(s[j..])
    ensures EmailShape(s)
  {
    var t := s[i + 1..];
    assert t[..j - (i + 1)] == s[i + 1..j];
    assert t[j - (i + 1)..] == s[j..];
    DomainShape(t, j - (i + 1));
    WordsIff(s[..i]);
  }

  /** A string of the shape local@domain is accepted. */
  lemma ShapeValidEmail(s: string, i: int)
    requires 0 <= i < |s| && s[i] == '@' && Dotted(s[..i]) && Dotted(s[i + 1..]) && EndsWithTld(s[i + 1..])
    ensures ValidEmail(s)
  {
    var t := s[i + 1..];
    var j := ShapeDomain(t);
    WordsIff(t[..j]);
    assert 0 < j;
    assert t[..j] == s[i + 1..i + 1 + j];
    assert t[j..] == s[i + 1 + j..];
    WordsIff(s[..i]);
    assert Words(s[..i]) && Words(s[i + 1..i + 1 + j]) && Suffixes(s[i + 1 + j..]);
  }

  /** The regular expression accepts exactly the strings of the form
      local@domain with a dotted local part and a dotted domain that ends
      with a dot and two or three word characters. */
  lemma ValidEmailIff(s: string)
    ensures ValidEmail(s) <==> EmailShape(s)
  {
    if ValidEmail(s) {
      var i, j :| 0 <= i < j <= |s| && s[i] == '@' && Words(s[..i]) && Words(s[i + 1..j]) && Suffixes(s[j..]);
      ValidEmailShape(s, i, j);
    }
    if EmailShape(s) {
      var i :| 0 <= i < |s| && s[i] == '@' && Dotted(s[..i]) && Dotted(s[i + 1..]) && EndsWithTld(s[i + 1..]);
      ShapeValidEmail(s, i);
    }
  }

  lemma CharsetHasNoAt(t: string)
    requires Charset(t)
    ensures '@' !in t
  {
  }

  /** Around a single '@', two strings over word characters and separators
      give exactly one '@' and nothing else outside that charset. */
  lemma OneAt(a: string, b: string)
    requires Charset(a) && Charset(b)
    ensures var s := a + ['@'] + b;
      && multiset(s)['@'] == 1
      && forall k :: 0 <= k < |s| && s[k] != '@' ==> IsWordChar(s[k]) || IsSeparator(s[k])
  {
    var s := a + ['@'] + b;
    CharsetHasNoAt(a);
    CharsetHasNoAt(b);
    assert multiset(s) == multiset(a) + multiset{'@'} + multiset(b);
    forall k | 0 <= k < |s| && s[k] != '@' ensures IsWordChar(s[k]) || IsSeparator(s[k]) {
      if k < |a| { assert s[k] == a[k]; } else { assert s[k] == b[k - |a| - 1]; }
    }
  }

  /** An accepted email contains exactly one '@', has only word characters,
      dots and hyphens besides it, ends with a dot and two or three word
      characters, and both its parts are dotted names: neither starts or ends
      with a separator, and no two separators are adjacent. */
  lemma ValidEmailProperties(s: string)
    requires ValidEmail(s)
    ensures multiset(s)['@'] == 1
    ensures forall k :: 0 <= k < |s| && s[k] != '@' ==> IsWordChar(s[k]) || IsSeparator(s[k])
    ensures EndsWithTld(s)
    ensures exists i :: 0 <= i < |s| && s[i] == '@' && Dotted(s[..i]) && Dotted(s[i + 1..])
  {
    ValidEmailIff(s);
    var i :| 0 <= i < |s| && s[i] == '@' && Dotted(s[..i]) && Dotted(s[i + 1..]) && EndsWithTld(s[i + 1..]);
    ShapeProperties(s, i);
  }

  lemma ShapeProperties(s: string, i: int)
    requires 0 <= i < |s| && s[i] == '@' && Dotted(s[..i]) && Dotted(s[i + 1..]) && EndsWithTld(s[i + 1..])
    ensures multiset(s)['@'] == 1
    ensures forall k :: 0 <= k < |s| && s[k] != '@' ==> IsWordChar(s[k]) || IsSeparator(s[k])
    ensures EndsWithTld(s)
  {
    var a, b := s[..i], s[i + 1..];
    assert s == a + ['@'] + b;
    OneAt(a, b);
    if TldAt(b, 2, 1) {
      TldAtConcat(a + ['@'], b, 2, 1);
    } else {
      TldAtConcat(a + ['@'], b, 3, 1);
    }
  }

  /** A string without '@' is never accepted. */
  lemma NoAtRejected(s: string)
    requires '@' !in s
    ensures !ValidEmail(s)
  {
  }

  /** A plain address is accepted. */
  lemma AcceptsPlainAddress()
    ensures ValidEmail("a.b@c-d.tr")
  {
    var s := "a.b@c-d.tr";
    var local, domain := s[..3], s[4..];
    assert local == "a.b" && domain == "c-d.tr";
    assert Dotted(local) && Dotted(domain);
    assert TldAt(domain, 2, 1);
    ShapeValidEmail(s, 3);
  }

  lemma DoubleSeparatorNotDotted(t: string, k: int)
    requires 0 <= k < |t| - 1 && IsSeparator(t[k]) && IsSeparator(t[k + 1])
    ensures !Dotted(t)
  {
  }

  /** Two separators in a row are refused. */
  lemma RejectsDoubleDot()
    ensures !ValidEmail("a..b@c.de")
  {
    var s := "a..b@c.de";
    ValidEmailIff(s);
    DoubleSeparatorNotDotted(s[..4], 1);
    assert forall i :: 0 <= i < |s| && s[i] == '@' ==> i == 4;
  }
}
