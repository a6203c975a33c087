/**
 * Keyword search (`semanticSearch`): the query is lower-cased and split on
 * single spaces; an image is a keyword match when its lower-cased
 * description contains at least one token. Every match is kept, other
 * images are kept by a random draw, and the kept images are shuffled. The
 * draw is the oracle `admit` (by input position) and the shuffle is the
 * oracle `picks`, which can produce every permutation.
 */
module Search {
  import opened GalleryTypes

  /** ASCII lower-casing of one character. */
  function LowerChar(c: char): char
  {
    if 'A' <= c <= 'Z' then (c as int + 32) as char else c
  }

  function Lower(s: string): (r: string)
    ensures |r| == |s|
    ensures forall i :: 0 <= i < |s| ==> r[i] == LowerChar(s[i])
  {
    if s == [] then [] else [LowerChar(s[0])] + Lower(s[1..])
  }

  /** `s.split(' ')`: the pieces between single spaces, always at least one,
    * empty pieces included. */
  function Split(s: string): (r: seq<string>)
    ensures |r| >= 1
  {
    if s == [] then [""]
    else if s[0] == ' ' then [""] + Split(s[1..])
    else var rest := Split(s[1..]); [[s[0]] + rest[0]] + rest[1..]
  }

  /** The pieces joined back with single spaces. */
  function Join(pieces: seq<string>): string
    requires |pieces| >= 1
  {
    if |pieces| == 1 then pieces[0] else pieces[0] + " " + Join(pieces[1..])
  }

  predicate NoSpace(s: string)
  {
    forall i :: 0 <= i < |s| ==> s[i] != ' '
  }

  /** Splitting loses nothing: joining the pieces gives the string back, and
    * no piece holds a space. */
  lemma {:induction false} JoinSplit(s: string)
    ensures Join(Split(s)) == s
    ensures forall k :: 0 <= k < |Split(s)| ==> NoSpace(Split(s)[k])
  {
    if s != [] {
      JoinSplit(s[1..]);
      var rest := Split(s[1..]);
      if s[0] == ' ' {
        assert Split(s)[1..] == rest;
        assert s == [' '] + s[1..];
      } else {
        var r := Split(s);
        assert r[0] == [s[0]] + rest[0] && r[1..] == rest[1..];
        if |rest| > 1 {
          assert rest == [rest[0]] + rest[1..];
          assert Join(rest) == rest[0] + " " + Join(rest[1..]);
        }
        assert s == [s[0]] + s[1..];
        forall k | 0 <= k < |r| ensures NoSpace(r[k]) {
          if k > 0 { assert r[k] == rest[k]; }
        }
      }
    }
  }

  /** And splitting a join of space-free pieces gives the pieces back. */
  lemma {:induction false} SplitJoin(pieces: seq<string>)
    requires |pieces| >= 1
    requires forall k :: 0 <= k < |pieces| ==> NoSpace(pieces[k])
    ensures Split(Join(pieces)) == pieces
  {
    if |pieces| == 1 {
      SplitNoSpace(pieces[0]);
    } else {
      SplitJoin(pieces[1..]);
      SplitPrefix(pieces[0], Join(pieces[1..]));
      assert pieces == [pieces[0]] + pieces[1..];
    }
  }

  lemma {:induction false} SplitNoSpace(w: string)
    requires NoSpace(w)
    ensures Split(w) == [w]
  {
    if w != [] {
      SplitNoSpace(w[1..]);
      assert w == [w[0]] + w[1..];
    }
  }

  /** A space-free word followed by a space and `rest` splits into the word
    * and the pieces of `rest`. */
  lemma {:induction false} SplitPrefix(w: string, rest: string)
    requires NoSpace(w)
    ensures Split(w + " " + rest) == [w] + Split(rest)
  {
    if w == [] {
      assert w + " " + rest == [' '] + rest;
      assert (w + " " + rest)[1..] == rest;
    } else {
      var s := w + " " + rest;
      assert s[1..] == w[1..] + " " + rest;
      SplitPrefix(w[1..], rest);
      assert w == [w[0]] + w[1..];
    }
  }

  /** `s` starts with `t`. */
  predicate StartsWith(s: string, t: string)
  {
    |t| <= |s| && s[..|t|] == t
  }

  /** `s.includes(t)`. */
  function Contains(s: string, t: string): bool
  {
    StartsWith(s, t) || (s != [] && Contains(s[1..], t))
  }

  /** `t` occurs in `s` at position `i`. */
  predicate OccursAt(s: string, t: string, i: int)
  {
    0 <= i && i + |t| <= |s| && s[i..i + |t|] == t
  }

  /** `Contains` is substring occurrence. */
  lemma {:induction false} ContainsIsSubstring(s: string, t: string)
    ensures Contains(s, t) <==> exists i :: OccursAt(s, t, i)
  {
    if StartsWith(s, t) {
      assert OccursAt(s, t, 0);
    }
    if s != [] {
      ContainsIsSubstring(s[1..], t);
      if Contains(s[1..], t) {
        var i :| OccursAt(s[1..], t, i);
        assert s[i + 1..i + 1 + |t|] == s[1..][i..i + |t|];
        assert OccursAt(s, t, i + 1);
      }
      if exists i :: OccursAt(s, t, i) {
        var i :| OccursAt(s, t, i);
        if i > 0 {
          assert s[1..][i - 1..i - 1 + |t|] == s[i..i + |t|];
          assert OccursAt(s[1..], t, i - 1);
        }
      }
    } else if exists i :: OccursAt(s, t, i) {
      var i :| OccursAt(s, t, i);
      assert i == 0 && |t| == 0;
      assert StartsWith(s, t);
    }
  }

  /** The empty string is in every string. */
  lemma {:induction false} ContainsEmpty(s: string)
    ensures Contains(s, "")
  {
    assert StartsWith(s, "");
  }

  /** How many of the keywords the description contains. */
  function MatchScore(keywords: seq<string>, description: string): nat
  {
    if keywords == [] then 0
    else (if Contains(description, keywords[0]) then 1 else 0) + MatchScore(keywords[1..], description)
  }

  lemma {:induction false} MatchScorePositive(keywords: seq<string>, description: string)
    ensures MatchScore(keywords, description) > 0 <==>
            exists k :: 0 <= k < |keywords| && Contains(description, keywords[k])
  {
    if keywords != [] {
      MatchScorePositive(keywords[1..], description);
      if exists k :: 0 <= k < |keywords| && Contains(description, keywords[k]) {
        var k :| 0 <= k < |keywords| && Contains(description, keywords[k]);
        if k > 0 { assert keywords[1..][k - 1] == keywords[k]; }
      }
      if MatchScore(keywords[1..], description) > 0 {
        var k :| 0 <= k < |keywords[1..]| && Contains(description, keywords[1..][k]);
        assert keywords[k + 1] == keywords[1..][k];
      }
    }
  }

  /** The query tokens: the lower-cased query split on spaces. */
  function Keywords(query: string): seq<string>
  {
    Split(Lower(query))
  }

  /** The image is a keyword match for the query. */
  predicate Matches(query: string, image: Image)
  {
    MatchScore(Keywords(query), Lower(image.description)) > 0
  }

  /** The images from position `i` on that the filter keeps: every keyword
    * match, and the others the oracle admits. */
  function Kept(query: string, images: seq<Image>, admit: nat -> bool, i: nat): seq<Image>
    decreases |images| - i
  {
    if i >= |images| then []
    else (if Matches(query, images[i]) || admit(i) then [images[i]] else []) + Kept(query, images, admit, i + 1)
  }

  /** A shuffle driven by `picks`: the next element out is the one at
    * `picks[0]` (modulo the number left), then the rest are shuffled. */
  function Shuffle<T>(s: seq<T>, picks: seq<nat>): seq<T>
    decreases |s|
  {
    if s == [] then []
    else
      var k := if picks == [] then 0 else picks[0] % |s|;
      [s[k]] + Shuffle(s[..k] + s[k + 1..], if picks == [] then [] else picks[1..])
  }

  /** `semanticSearch`. */
  function SemanticSearch(query: string, images: seq<Image>, admit: nat -> bool, picks: seq<nat>): seq<Image>
  {
    Shuffle(Kept(query, images, admit, 0), picks)
  }

  lemma {:induction false} ShufflePermutes<T>(s: seq<T>, picks: seq<nat>)
    ensures multiset(Shuffle(s, picks)) == multiset(s)
    decreases |s|
  {
    if s != [] {
      var k := if picks == [] then 0 else picks[0] % |s|;
      var rest := s[..k] + s[k + 1..];
      var more := if picks == [] then [] else picks[1..];
      ShufflePermutes(rest, more);
      assert Shuffle(s, picks) == [s[k]] + Shuffle(rest, more);
      RemoveAt(s, k);
    }
  }

  /** Every rearrangement of `s` is the outcome of some picks, so the oracle
    * covers whatever order the source's random comparator produces. */
  lemma {:induction false} ShuffleComplete<T>(s: seq<T>, r: seq<T>)
    requires multiset(r) == multiset(s)
    ensures exists picks :: Shuffle(s, picks) == r
    decreases |s|
  {
    if s == [] {
      assert |r| == |multiset(r)| == 0;
      assert Shuffle(s, []) == r;
    } else {
      assert |r| == |multiset(r)| == |s|;
      assert r[0] in multiset(s);
      var k :| 0 <= k < |s| && s[k] == r[0];
      var rest := s[..k] + s[k + 1..];
      RemoveFirst(s, r, k);
      ShuffleComplete(rest, r[1..]);
      var p :| Shuffle(rest, p) == r[1..];
      ShuffleFirstPick(s, k, p);
      assert r == [r[0]] + r[1..];
    }
  }

  /** Taking the match of `r[0]` out of `s` leaves what remains of `r`. */
  lemma {:induction false} RemoveFirst<T>(s: seq<T>, r: seq<T>, k: nat)
    requires multiset(r) == multiset(s) && r != [] && k < |s| && s[k] == r[0]
    ensures multiset(r[1..]) == multiset(s[..k] + s[k + 1..])
  {
    assert r == [r[0]] + r[1..];
    assert multiset(r) == multiset(r[1..]) + multiset{r[0]};
    RemoveAt(s, k);
    CancelOne(multiset(r[1..]), multiset(s[..k] + s[k + 1..]), r[0]);
  }

  /** Taking out the element at `k` takes one copy of it out of the multiset. */
  lemma {:induction false} RemoveAt<T>(s: seq<T>, k: nat)
    requires k < |s|
    ensures multiset(s) == multiset(s[..k] + s[k + 1..]) + multiset{s[k]}
  {
    assert s == s[..k] + [s[k]] + s[k + 1..];
  }

  lemma {:induction false} ShuffleFirstPick<T>(s: seq<T>, k: nat, p: seq<nat>)
    requires k < |s|
    ensures Shuffle(s, [k] + p) == [s[k]] + Shuffle(s[..k] + s[k + 1..], p)
  {
    ModSmall(k, |s|);
    assert ([k] + p)[1..] == p;
  }

  lemma {:induction false} ModSmall(k: nat, n: nat)
    requires k < n
    ensures k % n == k
  {
  }

  lemma {:induction false} CancelOne<T>(a: multiset<T>, b: multiset<T>, x: T)
    requires a + multiset{x} == b + multiset{x}
    ensures a == b
  {
    forall y ensures a[y] == b[y] {
      assert (a + multiset{x})[y] == (b + multiset{x})[y];
    }
  }

  /** The filter keeps a sub-multiset of the images from `i` on. */
  lemma {:induction false} KeptSub(query: string, images: seq<Image>, admit: nat -> bool, i: nat)
    requires i <= |images|
    ensures multiset(Kept(query, images, admit, i)) <= multiset(images[i..])
    decreases |images| - i
  {
    if i < |images| {
      KeptSub(query, images, admit, i + 1);
      var rest := Kept(query, images, admit, i + 1);
      MultisetCons(images, i);
      if Matches(query, images[i]) || admit(i) {
        assert multiset(Kept(query, images, admit, i)) == multiset{images[i]} + multiset(rest);
      } else {
        assert Kept(query, images, admit, i) == rest;
      }
    }
  }

  /** It keeps every keyword match as often as the images hold it. */
  lemma {:induction false} KeptMatch(query: string, images: seq<Image>, admit: nat -> bool, i: nat, image: Image)
    requires i <= |images| && Matches(query, image)
    ensures multiset(Kept(query, images, admit, i))[image] == multiset(images[i..])[image]
    decreases |images| - i
  {
    if i < |images| {
      KeptMatch(query, images, admit, i + 1, image);
      var rest := Kept(query, images, admit, i + 1);
      MultisetCons(images, i);
      if Matches(query, images[i]) || admit(i) {
        assert multiset(Kept(query, images, admit, i)) == multiset{images[i]} + multiset(rest);
      } else {
        assert images[i] != image;
        assert Kept(query, images, admit, i) == rest;
      }
    }
  }

  /** Whatever it keeps is a match or was admitted at its position. */
  lemma {:induction false} KeptOrigin(query: string, images: seq<Image>, admit: nat -> bool, i: nat, image: Image)
    requires i <= |images| && image in Kept(query, images, admit, i)
    ensures exists j :: i <= j < |images| && images[j] == image && (Matches(query, image) || admit(j))
    decreases |images| - i
  {
    if images[i] != image || !(Matches(query, image) || admit(i)) {
      KeptOrigin(query, images, admit, i + 1, image);
    }
  }

  lemma {:induction false} KeptFacts(query: string, images: seq<Image>, admit: nat -> bool, i: nat, image: Image)
    requires i <= |images|
    ensures multiset(Kept(query, images, admit, i)) <= multiset(images[i..])
    ensures Matches(query, image) ==> multiset(Kept(query, images, admit, i))[image] == multiset(images[i..])[image]
    ensures image in Kept(query, images, admit, i) ==>
              exists j :: i <= j < |images| && images[j] == image && (Matches(query, image) || admit(j))
  {
    KeptSub(query, images, admit, i);
    if Matches(query, image) {
      KeptMatch(query, images, admit, i, image);
    }
    if image in Kept(query, images, admit, i) {
      KeptOrigin(query, images, admit, i, image);
    }
  }

  /** The result is a rearrangement of a sub-multiset of the input that holds
    * every keyword match as often as the input does; anything else in it is
    * an image the oracle admitted. */
  lemma {:induction false} SemanticSearchResult(query: string, images: seq<Image>, admit: nat -> bool, picks: seq<nat>, image: Image)
    ensures multiset(SemanticSearch(query, images, admit, picks)) <= multiset(images)
    ensures Matches(query, image) ==>
              multiset(SemanticSearch(query, images, admit, picks))[image] == multiset(images)[image]
    ensures image in SemanticSearch(query, images, admit, picks) ==>
              exists j :: 0 <= j < |images| && images[j] == image && (Matches(query, image) || admit(j))
  {
    ShufflePermutes(Kept(query, images, admit, 0), picks);
    KeptFacts(query, images, admit, 0, image);
    assert images[0..] == images;
    assert image in SemanticSearch(query, images, admit, picks) <==>
           image in multiset(Kept(query, images, admit, 0));
  }

  /** With an oracle that admits nothing, the result holds exactly the
    * keyword matches. */
  lemma {:induction false} OnlyMatchesWithoutAdmission(query: string, images: seq<Image>, picks: seq<nat>, image: Image)
    ensures image in SemanticSearch(query, images, _ => false, picks) <==> image in images && Matches(query, image)
  {
    SemanticSearchResult(query, images, _ => false, picks, image);
    if image in images && Matches(query, image) {
      assert multiset(images)[image] > 0;
    }
  }

  /** Two spaces in a row somewhere in `s`. */
  predicate DoubledSpace(s: string)
  {
    exists i :: 0 <= i < |s| - 1 && s[i] == ' ' && s[i + 1] == ' '
  }

  lemma {:induction false} DoubledSpaceCons(s: string)
    requires s != []
    ensures DoubledSpace(s) <==> (|s| > 1 && s[0] == ' ' && s[1] == ' ') || DoubledSpace(s[1..])
  {
    if DoubledSpace(s) {
      var i :| 0 <= i < |s| - 1 && s[i] == ' ' && s[i + 1] == ' ';
      if i > 0 { assert s[1..][i - 1] == ' ' && s[1..][i] == ' '; }
    }
    if DoubledSpace(s[1..]) {
      var i :| 0 <= i < |s[1..]| - 1 && s[1..][i] == ' ' && s[1..][i + 1] == ' ';
      assert s[i + 1] == ' ' && s[i + 2] == ' ';
    }
  }

  /** `s.split(' ')` has an empty piece exactly when `s` is empty, starts or
    * ends with a space, or has two spaces in a row. */
  lemma {:induction false} EmptyPiece(s: string)
    ensures "" in Split(s) <==> s == [] || s[0] == ' ' || s[|s| - 1] == ' ' || DoubledSpace(s)
    decreases |s|, 1
  {
    if s != [] && s[0] != ' ' {
      var t := s[1..];
      var r := Split(s);
      assert r[0] != "" && r[1..] == Split(t)[1..];
      assert "" in r <==> "" in r[1..] by {
        assert r == [r[0]] + r[1..];
      }
      EmptyLaterPiece(t);
      DoubledSpaceCons(s);
    }
  }

  /** A piece after the first is empty exactly when `t` is non-empty and
    * ends with a space or has two spaces in a row. */
  lemma {:induction false} EmptyLaterPiece(t: string)
    ensures "" in Split(t)[1..] <==> t != [] && (t[|t| - 1] == ' ' || DoubledSpace(t))
    decreases |t|, 0
  {
    if t != [] {
      var u := t[1..];
      DoubledSpaceCons(t);
      if t[0] == ' ' {
        assert Split(t)[1..] == Split(u);
        EmptyPiece(u);
      } else {
        assert Split(t)[1..] == Split(u)[1..];
        EmptyLaterPiece(u);
      }
    }
  }

  /** A query with an empty token (empty, or a leading, trailing or doubled
    * space) matches every image, so the result is a rearrangement of all of
    * them. */
  lemma {:induction false} EmptyTokenMatchesAll(query: string, images: seq<Image>, admit: nat -> bool, picks: seq<nat>)
    requires "" in Keywords(query)
    ensures forall image :: Matches(query, image)
    ensures multiset(SemanticSearch(query, images, admit, picks)) == multiset(images)
  {
    forall image ensures Matches(query, image) {
      var k :| 0 <= k < |Keywords(query)| && Keywords(query)[k] == "";
      ContainsEmpty(Lower(image.description));
      MatchScorePositive(Keywords(query), Lower(image.description));
    }
    KeptAll(query, images, admit, 0);
    ShufflePermutes(Kept(query, images, admit, 0), picks);
    assert images[0..] == images;
  }

  lemma {:induction false} KeptAll(query: string, images: seq<Image>, admit: nat -> bool, i: nat)
    requires i <= |images|
    requires forall image :: Matches(query, image)
    ensures Kept(query, images, admit, i) == images[i..]
    decreases |images| - i
  {
    if i < |images| {
      KeptAll(query, images, admit, i + 1);
      assert images[i..] == [images[i]] + images[i + 1..];
    }
  }

  /** The query has an empty token exactly when it is empty, starts or ends
    * with a space, or has two spaces in a row: lower-casing moves no space. */
  lemma {:induction false} EmptyToken(query: string)
    ensures "" in Keywords(query) <==>
            query == [] || query[0] == ' ' || query[|query| - 1] == ' ' || DoubledSpace(query)
  {
    var l := Lower(query);
    EmptyPiece(l);
    if DoubledSpace(l) {
      var i :| 0 <= i < |l| - 1 && l[i] == ' ' && l[i + 1] == ' ';
      assert query[i] == ' ' && query[i + 1] == ' ';
    }
    if DoubledSpace(query) {
      var i :| 0 <= i < |query| - 1 && query[i] == ' ' && query[i + 1] == ' ';
      assert l[i] == ' ' && l[i + 1] == ' ';
    }
  }
}
