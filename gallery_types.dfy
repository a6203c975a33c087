/**
 * The data model shared by the gallery's feature utilities: images with
 * their detected faces, events, and a few sequence helpers used by every
 * other module.
 */
module GalleryTypes {

  datatype Option<T> = None | Some(value: T)

  /** A detected face. Coordinates are fractions of the image (reals, so the
    * arithmetic done on them is exact). */
  datatype Face = Face(
    id: string,
    x: real,
    y: real,
    width: real,
    height: real,
    personId: Option<string>,
    confidence: real)

  /** An image of the gallery; `timestamp` is milliseconds since the epoch. */
  datatype Image = Image(
    id: string,
    src: string,
    timestamp: int,
    faces: seq<Face>,
    description: string,
    embedding: Option<seq<real>>,
    eventId: Option<string>)

  /** A group of images taken close together in time. */
  datatype Event = Event(id: string, name: string, imageIds: seq<string>, timestamp: int)

  /** The ids of a sequence of images, in order. */
  function ImageIds(images: seq<Image>): (r: seq<string>)
    ensures |r| == |images|
    ensures forall i :: 0 <= i < |images| ==> r[i] == images[i].id
  {
    if images == [] then [] else [images[0].id] + ImageIds(images[1..])
  }

  lemma {:induction false} ImageIdsSnoc(images: seq<Image>, image: Image)
    ensures ImageIds(images + [image]) == ImageIds(images) + [image.id]
  {
    assert ImageIds(images + [image])[|images|] == image.id;
  }

  /** The ids of a sequence of faces, in order. */
  function FaceIds(faces: seq<Face>): (r: seq<string>)
    ensures |r| == |faces|
    ensures forall i :: 0 <= i < |faces| ==> r[i] == faces[i].id
  {
    if faces == [] then [] else [faces[0].id] + FaceIds(faces[1..])
  }

  /** `r` is `s` with some elements left out, the rest in order. */
  predicate Subsequence<T(==)>(r: seq<T>, s: seq<T>)
    decreases |s|
  {
    if r == [] then true
    else if s == [] then false
    else (r[0] == s[0] && Subsequence(r[1..], s[1..])) || Subsequence(r, s[1..])
  }

  lemma {:induction false} SubsequenceReflexive<T>(s: seq<T>)
    ensures Subsequence(s, s)
  {
    if s != [] {
      SubsequenceReflexive(s[1..]);
    }
  }

  /** Elements in front of the longer sequence do not matter. */
  lemma {:induction false} SubsequenceWiden<T>(r: seq<T>, s: seq<T>, s2: seq<T>)
    requires Subsequence(r, s2)
    ensures Subsequence(r, s + s2)
    decreases |s|
  {
    if s == [] {
      assert s + s2 == s2;
    } else {
      assert (s + s2)[1..] == s[1..] + s2;
      SubsequenceWiden(r, s[1..], s2);
    }
  }

  /** Subsequences concatenate. */
  lemma {:induction false} SubsequenceAppend<T>(r: seq<T>, s: seq<T>, r2: seq<T>, s2: seq<T>)
    requires Subsequence(r, s) && Subsequence(r2, s2)
    ensures Subsequence(r + r2, s + s2)
    decreases |s|
  {
    if r == [] {
      assert r + r2 == r2;
      SubsequenceWiden(r2, s, s2);
    } else {
      assert s != [];
      assert (r + r2)[0] == r[0] && (r + r2)[1..] == r[1..] + r2;
      assert (s + s2)[0] == s[0] && (s + s2)[1..] == s[1..] + s2;
      if r[0] == s[0] && Subsequence(r[1..], s[1..]) {
        SubsequenceAppend(r[1..], s[1..], r2, s2);
      } else {
        SubsequenceAppend(r, s[1..], r2, s2);
      }
    }
  }

  /** No element occurs twice. */
  predicate NoDup<T(==)>(s: seq<T>)
  {
    forall i, j :: 0 <= i < j < |s| ==> s[i] != s[j]
  }

  /** Without duplicates, every element is counted at most once. */
  lemma {:induction false} NoDupCountsAtMostOne<T>(s: seq<T>, x: T)
    requires NoDup(s)
    ensures multiset(s)[x] <= 1
  {
    if s != [] {
      var rest := s[1..];
      assert NoDup(rest) by {
        forall i, j | 0 <= i < j < |rest| ensures rest[i] != rest[j] {
          assert rest[i] == s[i + 1] && rest[j] == s[j + 1];
        }
      }
      NoDupCountsAtMostOne(rest, x);
      assert s[0] !in rest by {
        forall i | 0 <= i < |rest| ensures rest[i] != s[0] {
          assert rest[i] == s[i + 1];
        }
      }
      assert s == [s[0]] + rest;
      assert multiset(s) == multiset{s[0]} + multiset(rest);
    }
  }

  /** An element at two positions is counted at least twice. */
  lemma {:induction false} TwoCopies<T>(s: seq<T>, i: nat, j: nat)
    requires i < j < |s| && s[i] == s[j]
    ensures multiset(s)[s[i]] >= 2
  {
    var x := s[i];
    assert s == s[..i] + [x] + s[i + 1..j] + [x] + s[j + 1..];
  }

  /** A rearrangement of a sequence without duplicates has none. */
  lemma {:induction false} NoDupPermutation<T>(a: seq<T>, b: seq<T>)
    requires NoDup(a) && multiset(a) == multiset(b)
    ensures NoDup(b)
  {
    forall i, j | 0 <= i < j < |b| ensures b[i] != b[j] {
      if b[i] == b[j] {
        TwoCopies(b, i, j);
        NoDupCountsAtMostOne(a, b[i]);
      }
    }
  }

  /** A non-empty sequence is its front followed by its last element. */
  lemma {:induction false} TakeLast<T>(s: seq<T>)
    requires s != []
    ensures s[..|s| - 1] + [s[|s| - 1]] == s
  {
  }

  /** The multiset of a suffix is its first element plus the rest. */
  lemma {:induction false} MultisetCons<T>(s: seq<T>, i: nat)
    requires i < |s|
    ensures multiset(s[i..]) == multiset{s[i]} + multiset(s[i + 1..])
  {
    assert s[i..] == [s[i]] + s[i + 1..];
  }

  /** A position of an element counted in the multiset of `s`. */
  lemma {:induction false} PositionOf<T>(s: seq<T>, x: T) returns (i: nat)
    requires x in multiset(s)
    ensures i < |s| && s[i] == x
  {
    assert x in s;
    i :| 0 <= i < |s| && s[i] == x;
  }

  /** An element with property `p` that is unique in `u` stays unique in a
    * duplicate-free rearrangement `g` of `u`. */
  lemma {:induction false} UniqueInPermutation<T>(u: seq<T>, g: seq<T>, p: T -> bool)
    requires multiset(u) == multiset(g) && NoDup(g)
    requires forall a, b :: 0 <= a < |u| && 0 <= b < |u| && p(u[a]) && p(u[b]) ==> a == b
    ensures forall a, b :: 0 <= a < |g| && 0 <= b < |g| && p(g[a]) && p(g[b]) ==> a == b
  {
    forall a, b | 0 <= a < |g| && 0 <= b < |g| && p(g[a]) && p(g[b]) ensures a == b {
      assert g[a] in multiset(u) && g[b] in multiset(u);
      var a' := PositionOf(u, g[a]);
      var b' := PositionOf(u, g[b]);
    }
  }

  /** The concatenation of a sequence of sequences. */
  function Concat<T>(ss: seq<seq<T>>): seq<T>
  {
    if ss == [] then [] else Concat(ss[..|ss| - 1]) + ss[|ss| - 1]
  }

  lemma {:induction false} ConcatSnoc<T>(ss: seq<seq<T>>, s: seq<T>)
    ensures Concat(ss + [s]) == Concat(ss) + s
  {
    assert (ss + [s])[..|ss|] == ss;
  }

  lemma {:induction false} ConcatAppend<T>(ss: seq<seq<T>>, tt: seq<seq<T>>)
    ensures Concat(ss + tt) == Concat(ss) + Concat(tt)
  {
    if tt == [] {
      assert ss + tt == ss;
    } else {
      var last := tt[|tt| - 1];
      var init := tt[..|tt| - 1];
      assert ss + tt == (ss + init) + [last];
      assert tt == init + [last];
      ConcatSnoc(ss + init, last);
      ConcatSnoc(init, last);
      ConcatAppend(ss, init);
    }
  }

  /** Every element of a member of `ss` is in `Concat(ss)`, and conversely. */
  lemma {:induction false} InConcat<T>(ss: seq<seq<T>>, x: T)
    ensures x in Concat(ss) <==> exists k :: 0 <= k < |ss| && x in ss[k]
  {
    if ss != [] {
      var init := ss[..|ss| - 1];
      assert ss == init + [ss[|ss| - 1]];
      InConcat(init, x);
      if x in Concat(ss) && x !in ss[|ss| - 1] {
        var k :| 0 <= k < |init| && x in init[k];
        assert x in ss[k];
      }
      if exists k :: 0 <= k < |ss| && x in ss[k] {
        var k :| 0 <= k < |ss| && x in ss[k];
        if k < |init| { assert x in init[k]; }
      }
    }
  }

  /** A duplicate-free concatenation splits into pairwise disjoint,
    * duplicate-free parts. */
  lemma {:induction false} ConcatNoDupParts<T>(ss: seq<seq<T>>)
    requires NoDup(Concat(ss))
    ensures forall k :: 0 <= k < |ss| ==> NoDup(ss[k])
    ensures forall a, b, x :: 0 <= a < b < |ss| && x in ss[a] ==> x !in ss[b]
  {
    if ss != [] {
      var init, last := ss[..|ss| - 1], ss[|ss| - 1];
      assert ss == init + [last];
      var c := Concat(init);
      assert Concat(ss) == c + last;
      assert NoDup(c) by {
        forall i, j | 0 <= i < j < |c| ensures c[i] != c[j] {
          assert Concat(ss)[i] == c[i] && Concat(ss)[j] == c[j];
        }
      }
      ConcatNoDupParts(init);
      forall i, j | 0 <= i < j < |last| ensures last[i] != last[j] {
        assert Concat(ss)[|c| + i] == last[i] && Concat(ss)[|c| + j] == last[j];
      }
      forall a, x | 0 <= a < |init| && x in ss[a] ensures x !in last {
        InConcat(init, x);
        assert x in init[a];
        var i :| 0 <= i < |c| && c[i] == x;
        forall j | 0 <= j < |last| ensures last[j] != x {
          assert Concat(ss)[i] == x && Concat(ss)[|c| + j] == last[j];
        }
      }
      forall a, b, x | 0 <= a < b < |ss| && x in ss[a] ensures x !in ss[b] {
        if b < |init| {
          assert ss[a] == init[a] && ss[b] == init[b];
        }
      }
    }
  }
}
