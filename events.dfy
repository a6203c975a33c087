/**
 * Event grouping (`groupIntoEvents`): images are stably sorted by
 * timestamp, then walked with a cursor on the current event. An image whose
 * timestamp exceeds the current event's own (first) timestamp by more than
 * four hours opens a new event; any other image joins the current one.
 * Event ids and names come from the clock, random numbers and locale
 * formatting in the source; here they are the oracles `eventId` and
 * `eventName`, seen as opaque strings.
 */
module Events {
  import opened GalleryTypes
  import opened StableSort

  /** Four hours, in milliseconds. */
  const TimeWindow: int := 4 * 60 * 60 * 1000

  function Timestamp(image: Image): int
  {
    image.timestamp
  }

  /** The images in the order the walk visits them. */
  function SortedByTime(images: seq<Image>): seq<Image>
  {
    SortBy(images, Timestamp)
  }

  /** The image ids of all events, event after event. */
  function EventImageIds(events: seq<Event>): seq<string>
  {
    if events == [] then [] else EventImageIds(events[..|events| - 1]) + events[|events| - 1].imageIds
  }

  lemma {:induction false} EventImageIdsSnoc(events: seq<Event>, e: Event)
    ensures EventImageIds(events + [e]) == EventImageIds(events) + e.imageIds
  {
    assert (events + [e])[..|events|] == events;
  }

  lemma {:induction false} EventImageIdsExtendLast(events: seq<Event>, id: string)
    requires events != []
    ensures EventImageIds(events[|events| - 1 := events[|events| - 1].(imageIds := events[|events| - 1].imageIds + [id])])
         == EventImageIds(events) + [id]
  {
    var n := |events|;
    var e' := events[n - 1].(imageIds := events[n - 1].imageIds + [id]);
    assert events[n - 1 := e'][..n - 1] == events[..n - 1];
  }

  /** The event opened by `image`, the `k`-th event. */
  function OpenEvent(eventId: nat -> string, eventName: (nat, int) -> string, k: nat, image: Image): Event
  {
    Event(eventId(k), eventName(k, image.timestamp), [image.id], image.timestamp)
  }

  /** Event `k` is the event of the group `groups[k]`. */
  ghost predicate EventsOfGroups(eventId: nat -> string, eventName: (nat, int) -> string,
                                 events: seq<Event>, groups: seq<seq<Image>>)
  {
    && |events| == |groups|
    && forall k :: 0 <= k < |groups| ==>
         && groups[k] != []
         && events[k].id == eventId(k)
         && events[k].name == eventName(k, groups[k][0].timestamp)
         && events[k].timestamp == groups[k][0].timestamp
         && events[k].imageIds == ImageIds(groups[k])
  }

  /** Every member lies within the window after its event's timestamp. */
  ghost predicate WithinWindow(events: seq<Event>, groups: seq<seq<Image>>)
    requires |events| == |groups|
  {
    forall k, j :: 0 <= k < |groups| && 0 <= j < |groups[k]| ==>
      0 <= groups[k][j].timestamp - events[k].timestamp <= TimeWindow
  }

  /** Each event starts more than the window after the previous one. */
  predicate StartsApart(events: seq<Event>)
  {
    forall k :: 0 < k < |events| ==> events[k].timestamp - events[k - 1].timestamp > TimeWindow
  }

  /** The state of the walk after the first `i` sorted images. */
  ghost predicate Walked(eventId: nat -> string, eventName: (nat, int) -> string, sortedImages: seq<Image>, i: nat,
                         events: seq<Event>, groups: seq<seq<Image>>)
  {
    && i <= |sortedImages|
    && Concat(groups) == sortedImages[..i]
    && EventImageIds(events) == ImageIds(sortedImages[..i])
    && (events == [] <==> i == 0)
    && EventsOfGroups(eventId, eventName, events, groups)
    && WithinWindow(events, groups)
    && StartsApart(events)
    && (i > 0 ==> events[|events| - 1].timestamp <= sortedImages[i - 1].timestamp)
  }

  lemma {:induction false} OpenKeepsEvents(eventId: nat -> string, eventName: (nat, int) -> string,
                        events: seq<Event>, groups: seq<seq<Image>>, image: Image)
    requires EventsOfGroups(eventId, eventName, events, groups)
    ensures EventsOfGroups(eventId, eventName, events + [OpenEvent(eventId, eventName, |events|, image)],
                           groups + [[image]])
  {
    assert ImageIds([image]) == [image.id];
  }

  lemma {:induction false} OpenKeepsWindow(events: seq<Event>, groups: seq<seq<Image>>, e: Event, image: Image)
    requires |events| == |groups| && WithinWindow(events, groups)
    requires e.timestamp == image.timestamp
    ensures WithinWindow(events + [e], groups + [[image]])
  {
    var events': seq<Event>, groups': seq<seq<Image>> := events + [e], groups + [[image]];
    forall k, j | 0 <= k < |groups'| && 0 <= j < |groups'[k]|
      ensures 0 <= groups'[k][j].timestamp - events'[k].timestamp <= TimeWindow
    {
      if k < |groups| {
        assert groups'[k][j] == groups[k][j] && events'[k] == events[k];
      }
    }
  }

  lemma {:induction false} OpenKeepsStarts(events: seq<Event>, e: Event)
    requires StartsApart(events)
    requires events == [] || e.timestamp - events[|events| - 1].timestamp > TimeWindow
    ensures StartsApart(events + [e])
  {
    var events' := events + [e];
    forall k | 0 < k < |events'| ensures events'[k].timestamp - events'[k - 1].timestamp > TimeWindow {
      if k < |events| {
        assert events'[k] == events[k] && events'[k - 1] == events[k - 1];
      }
    }
  }

  /** The step where the image at `i` opens a new event. */
  lemma {:induction false} WalkOpen(eventId: nat -> string, eventName: (nat, int) -> string, sortedImages: seq<Image>, i: nat,
                 events: seq<Event>, groups: seq<seq<Image>>)
    requires i < |sortedImages|
    requires Walked(eventId, eventName, sortedImages, i, events, groups)
    requires events == [] || sortedImages[i].timestamp - events[|events| - 1].timestamp > TimeWindow
    ensures Walked(eventId, eventName, sortedImages, i + 1,
                   events + [OpenEvent(eventId, eventName, |events|, sortedImages[i])], groups + [[sortedImages[i]]])
  {
    var image := sortedImages[i];
    var e := OpenEvent(eventId, eventName, |events|, image);
    assert sortedImages[..i + 1] == sortedImages[..i] + [image];
    ImageIdsSnoc(sortedImages[..i], image);
    EventImageIdsSnoc(events, e);
    ConcatSnoc(groups, [image]);
    OpenKeepsEvents(eventId, eventName, events, groups, image);
    OpenKeepsWindow(events, groups, e, image);
    OpenKeepsStarts(events, e);
  }

  /** The last event with `image` appended to it. */
  function JoinLast(events: seq<Event>, image: Image): seq<Event>
    requires events != []
  {
    var n := |events|;
    events[n - 1 := events[n - 1].(imageIds := events[n - 1].imageIds + [image.id])]
  }

  /** The last group with `image` appended to it. */
  function JoinLastGroup(groups: seq<seq<Image>>, image: Image): seq<seq<Image>>
    requires groups != []
  {
    groups[|groups| - 1 := groups[|groups| - 1] + [image]]
  }

  lemma {:induction false} JoinKeepsEvents(eventId: nat -> string, eventName: (nat, int) -> string,
                        events: seq<Event>, groups: seq<seq<Image>>, image: Image)
    requires events != [] && EventsOfGroups(eventId, eventName, events, groups)
    ensures EventsOfGroups(eventId, eventName, JoinLast(events, image), JoinLastGroup(groups, image))
  {
    var n := |events|;
    ImageIdsSnoc(groups[n - 1], image);
    assert JoinLastGroup(groups, image)[n - 1][0] == groups[n - 1][0];
  }

  lemma {:induction false} JoinKeepsWindow(events: seq<Event>, groups: seq<seq<Image>>, image: Image)
    requires events != [] && |events| == |groups| && WithinWindow(events, groups)
    requires 0 <= image.timestamp - events[|events| - 1].timestamp <= TimeWindow
    ensures WithinWindow(JoinLast(events, image), JoinLastGroup(groups, image))
  {
    var events': seq<Event>, groups': seq<seq<Image>> := JoinLast(events, image), JoinLastGroup(groups, image);
    var n := |events|;
    forall k, j | 0 <= k < |groups'| && 0 <= j < |groups'[k]|
      ensures 0 <= groups'[k][j].timestamp - events'[k].timestamp <= TimeWindow
    {
      if k == n - 1 && j == |groups[n - 1]| {
        assert groups'[k][j] == image;
      } else {
        assert groups'[k][j] == groups[k][j];
      }
    }
  }

  lemma {:induction false} JoinKeepsStarts(events: seq<Event>, image: Image)
    requires events != [] && StartsApart(events)
    ensures StartsApart(JoinLast(events, image))
  {
    var events' := JoinLast(events, image);
    assert forall k :: 0 <= k < |events| ==> events'[k].timestamp == events[k].timestamp;
  }

  lemma {:induction false} JoinKeepsConcat(groups: seq<seq<Image>>, image: Image)
    requires groups != []
    ensures Concat(JoinLastGroup(groups, image)) == Concat(groups) + [image]
  {
    var n := |groups|;
    var g := groups[n - 1];
    assert groups == groups[..n - 1] + [g];
    assert JoinLastGroup(groups, image) == groups[..n - 1] + [g + [image]];
    ConcatSnoc(groups[..n - 1], g);
    ConcatSnoc(groups[..n - 1], g + [image]);
  }

  /** The step where the image at `i` joins the current (last) event. */
  lemma {:induction false} WalkJoin(eventId: nat -> string, eventName: (nat, int) -> string, sortedImages: seq<Image>, i: nat,
                 events: seq<Event>, groups: seq<seq<Image>>)
    requires i < |sortedImages| && SortedBy(sortedImages, Timestamp)
    requires Walked(eventId, eventName, sortedImages, i, events, groups)
    requires events != [] && sortedImages[i].timestamp - events[|events| - 1].timestamp <= TimeWindow
    ensures Walked(eventId, eventName, sortedImages, i + 1,
                   JoinLast(events, sortedImages[i]), JoinLastGroup(groups, sortedImages[i]))
  {
    var image := sortedImages[i];
    assert sortedImages[..i + 1] == sortedImages[..i] + [image];
    ImageIdsSnoc(sortedImages[..i], image);
    assert Timestamp(sortedImages[i - 1]) <= Timestamp(image);
    EventImageIdsExtendLast(events, image.id);
    JoinKeepsEvents(eventId, eventName, events, groups, image);
    JoinKeepsWindow(events, groups, image);
    JoinKeepsStarts(events, image);
    JoinKeepsConcat(groups, image);
  }

  /** One iteration of the walk: the image at `i` opens a new event when
    * there is no current event or it lies more than the window after the
    * current event's timestamp, and joins the current event otherwise. */
  method WalkStep(eventId: nat -> string, eventName: (nat, int) -> string, sortedImages: seq<Image>, i: nat,
                  events: seq<Event>, ghost groups: seq<seq<Image>>)
    returns (events': seq<Event>, ghost groups': seq<seq<Image>>)
    requires i < |sortedImages| && SortedBy(sortedImages, Timestamp)
    requires Walked(eventId, eventName, sortedImages, i, events, groups)
    ensures Walked(eventId, eventName, sortedImages, i + 1, events', groups')
    ensures events == [] || sortedImages[i].timestamp - events[|events| - 1].timestamp > TimeWindow ==>
              events' == events + [OpenEvent(eventId, eventName, |events|, sortedImages[i])]
    ensures events != [] && sortedImages[i].timestamp - events[|events| - 1].timestamp <= TimeWindow ==>
              events' == JoinLast(events, sortedImages[i])
  {
    var image := sortedImages[i];
    if events == [] || image.timestamp - events[|events| - 1].timestamp > TimeWindow {
      WalkOpen(eventId, eventName, sortedImages, i, events, groups);
      events' := events + [OpenEvent(eventId, eventName, |events|, image)];
      groups' := groups + [[image]];
    } else {
      WalkJoin(eventId, eventName, sortedImages, i, events, groups);
      var current := events[|events| - 1];
      events' := events[|events| - 1 := current.(imageIds := current.imageIds + [image.id])];
      groups' := JoinLastGroup(groups, image);
    }
  }

  /** The walk over the sorted images, from no events on. */
  method Walk(eventId: nat -> string, eventName: (nat, int) -> string, sortedImages: seq<Image>)
    returns (events: seq<Event>, ghost groups: seq<seq<Image>>)
    requires SortedBy(sortedImages, Timestamp)
    ensures Walked(eventId, eventName, sortedImages, |sortedImages|, events, groups)
  {
    events, groups := [], [];
    // The source's `currentEvent` always designates the last event pushed,
    // so "no current event" is `events == []` and the cursor is the last index.
    var i := 0;
    while i < |sortedImages|
      invariant Walked(eventId, eventName, sortedImages, i, events, groups)
    {
      events, groups := WalkStep(eventId, eventName, sortedImages, i, events, groups);
      i := i + 1;
    }
  }

  /** The walk over all sorted images. */
  lemma {:induction false} WalkDone(eventId: nat -> string, eventName: (nat, int) -> string, images: seq<Image>,
                                    events: seq<Event>, groups: seq<seq<Image>>)
    requires Walked(eventId, eventName, SortedByTime(images), |SortedByTime(images)|, events, groups)
    ensures Concat(groups) == SortedByTime(images)
    ensures multiset(Concat(groups)) == multiset(images)
    ensures SortedBy(Concat(groups), Timestamp)
    ensures forall t :: WithKey(Concat(groups), Timestamp, t) == WithKey(images, Timestamp, t)
    ensures EventImageIds(events) == ImageIds(SortedByTime(images))
    ensures events == [] <==> images == []
  {
    var sortedImages := SortedByTime(images);
    SortByCorrect(images, Timestamp);
    assert sortedImages[..|sortedImages|] == sortedImages;
    forall t ensures WithKey(sortedImages, Timestamp, t) == WithKey(images, Timestamp, t) {
      SortByStable(images, Timestamp, t);
    }
  }

  /**
   * `groupIntoEvents`. `groups` are the images of each event. Together they
   * are the images sorted by timestamp (equal timestamps in input order), so
   * the events partition the input, and no images give no events; each event
   * is non-empty, carries its first member's timestamp, holds members at
   * most the window after that timestamp, and starts more than the window
   * after the previous event.
   */
  method GroupIntoEvents(images: seq<Image>, eventId: nat -> string, eventName: (nat, int) -> string)
    returns (events: seq<Event>, ghost groups: seq<seq<Image>>)
    ensures Concat(groups) == SortedByTime(images)
    ensures multiset(Concat(groups)) == multiset(images)
    ensures SortedBy(Concat(groups), Timestamp)
    ensures forall t :: WithKey(Concat(groups), Timestamp, t) == WithKey(images, Timestamp, t)
    ensures EventImageIds(events) == ImageIds(SortedByTime(images))
    ensures events == [] <==> images == []
    ensures EventsOfGroups(eventId, eventName, events, groups)
    ensures WithinWindow(events, groups)
    ensures StartsApart(events)
  {
    var sortedImages := SortedByTime(images);
    SortByCorrect(images, Timestamp);
    events, groups := Walk(eventId, eventName, sortedImages);
    WalkDone(eventId, eventName, images, events, groups);
  }
}
