/**
 * The onboarding screen `PreferencesContainer`: the user swipes through the
 * event catalogue, each swipe appends a like/dislike record to an in-memory
 * history, and once the deck is exhausted every record is written to the
 * user's interaction collection, in order, before the profile vector computed
 * from the whole history is stored on the user document.
 *
 * The React state (`currentIndex`, `interactionHistory`) becomes fields of a
 * class; the two Firestore hooks become write logs the methods append to.
 */
module Onboarding {
  import opened Wrappers
  import opened PreferenceVector

  /** The swipe direction reported by the card stack. */
  datatype Direction = Left | Right

  /** An event of the `events` collection, as far as the screen reads it. */
  datatype CatalogEvent = CatalogEvent(id: string, eventVector: seq<real>)

  /** A document added to `users/{uid}/eventInteractionHistories`: the record plus `createdAt`. */
  datatype StoredInteraction = StoredInteraction(record: InteractionRecord, createdAt: int)

  /** The fields `setUserData` writes to `users/{uid}`. */
  datatype UserUpdate = UserUpdate(preferenceVector: seq<real>, updatedAt: int)

  /** `direction === 'right' ? 'like' : 'dislike'`. */
  function ActionFor(d: Direction): (a: Action)
    ensures a == Like <==> d == Right
    ensures a == Dislike <==> d == Left
    ensures a != Kokoikku && !a.Unrecognised?
  {
    match d
    case Right => Like
    case Left => Dislike
  }

  /** The documents the save loop adds for `hs`; the i-th one is stamped with the i-th clock reading. */
  function StoredDocuments(hs: seq<InteractionRecord>, clock: nat -> int): (docs: seq<StoredInteraction>)
    ensures |docs| == |hs|
    ensures forall i :: 0 <= i < |hs| ==> docs[i].record == hs[i] && docs[i].createdAt == clock(i)
  {
    seq(|hs|, i requires 0 <= i < |hs| => StoredInteraction(hs[i], clock(i)))
  }

  /** Writing the first i + 1 records extends the documents for the first i by one. */
  lemma StoredDocumentsStep(hs: seq<InteractionRecord>, clock: nat -> int, i: nat)
    requires i < |hs|
    ensures StoredDocuments(hs[..i + 1], clock)
      == StoredDocuments(hs[..i], clock) + [StoredInteraction(hs[i], clock(i))]
  {
    var l, r := StoredDocuments(hs[..i + 1], clock), StoredDocuments(hs[..i], clock) + [StoredInteraction(hs[i], clock(i))];
    assert |l| == |r|;
    forall j | 0 <= j < |l|
      ensures l[j] == r[j]
    {
    }
  }

  /** The records of the stored documents are the history, in its order. */
  lemma StoredRecordsAreHistory(hs: seq<InteractionRecord>, clock: nat -> int)
    ensures seq(|hs|, i requires 0 <= i < |hs| => StoredDocuments(hs, clock)[i].record) == hs
  {
  }

  /** Only like and dislike records, all of the signed-in user, all of one dimension. */
  ghost predicate WellFormedHistory(hs: seq<InteractionRecord>, uid: string, dimension: nat) {
    forall r :: r in hs ==>
      (r.action == Like || r.action == Dislike) && r.userId == uid && |r.eventVector| == dimension
  }

  /** A well-formed history can be aggregated: its vectors agree in length. */
  lemma WellFormedSameDimension(hs: seq<InteractionRecord>, uid: string, dimension: nat)
    requires WellFormedHistory(hs, uid, dimension)
    ensures SameDimension(hs)
    ensures forall r :: r in hs ==> r.action != Kokoikku && !r.action.Unrecognised?
  {
  }

  /** Reordering a well-formed history keeps it well formed. */
  lemma SortWellFormed(hs: seq<InteractionRecord>, uid: string, dimension: nat)
    requires WellFormedHistory(hs, uid, dimension)
    ensures WellFormedHistory(SortNewestFirst(hs), uid, dimension)
  {
    SortMembers(hs);
  }

  class PreferencesSession {
    /** `user?.uid`: None when nobody is signed in. */
    const user: Option<string>
    /** The loaded `events` collection: None while it has not arrived. */
    const events: Option<seq<CatalogEvent>>
    /** The length every catalogue vector has. */
    ghost const dimension: nat

    var currentIndex: nat
    var interactionHistory: seq<InteractionRecord>
    /** Documents added through `addInteraction`, oldest first. */
    var storedInteractions: seq<StoredInteraction>
    /** Every `setUserData` call, oldest first. */
    var userUpdates: seq<UserUpdate>

    ghost predicate Valid()
      reads this
    {
      (events.Some? ==> forall e :: e in events.value ==> |e.eventVector| == dimension)
      && (interactionHistory != [] ==> user.Some?)
      && WellFormedHistory(interactionHistory, if user.Some? then user.value else "", dimension)
    }

    /** A swipe does nothing: no catalogue, deck already exhausted, or nobody signed in. */
    predicate SwipeIgnored()
      reads this
    {
      events.None? || currentIndex >= |events.value| || user.None?
    }

    /** The saving effect fires: the catalogue is loaded and the index is past its end. */
    predicate DeckExhausted()
      reads this
    {
      events.Some? && currentIndex >= |events.value|
    }

    constructor(user: Option<string>, events: Option<seq<CatalogEvent>>, ghost dimension: nat)
      requires events.Some? ==> forall e :: e in events.value ==> |e.eventVector| == dimension
      ensures Valid()
      ensures this.user == user && this.events == events && this.dimension == dimension
      ensures currentIndex == 0 && interactionHistory == []
      ensures storedInteractions == [] && userUpdates == []
    {
      this.user := user;
      this.events := events;
      this.dimension := dimension;
      currentIndex := 0;
      interactionHistory := [];
      storedInteractions := [];
      userUpdates := [];
    }

    /** `onIndexChange`: the card stack moves the index after every swipe. */
    method SetCurrentIndex(i: nat)
      requires Valid()
      modifies this
      ensures Valid()
      ensures currentIndex == i
      ensures interactionHistory == old(interactionHistory)
      ensures storedInteractions == old(storedInteractions) && userUpdates == old(userUpdates)
    {
      currentIndex := i;
    }

    /**
     * `handleSwipe(direction)` at time `now` (the seconds of `Timestamp.now()`):
     * unless ignored, appends one record for the current event.
     */
    method HandleSwipe(direction: Direction, now: int)
      requires Valid()
      modifies this
      ensures Valid()
      ensures currentIndex == old(currentIndex)
      ensures old(SwipeIgnored()) ==> interactionHistory == old(interactionHistory)
      ensures !old(SwipeIgnored()) ==>
        interactionHistory == old(interactionHistory) + [InteractionRecord(
          user.value,
          events.value[currentIndex].id,
          ActionFor(direction),
          events.value[currentIndex].eventVector,
          now)]
      ensures old(interactionHistory) <= interactionHistory
      ensures storedInteractions == old(storedInteractions) && userUpdates == old(userUpdates)
    {
      if events.None? || currentIndex >= |events.value| || user.None? {
        return;
      }
      var event := events.value[currentIndex];
      var action := ActionFor(direction);
      var newHistory := InteractionRecord(user.value, event.id, action, event.eventVector, now);
      assert event in events.value;
      interactionHistory := interactionHistory + [newHistory];
    }

    /**
     * `onCalculateAndSave()`: nothing without a user; otherwise writes every
     * record in order (the k-th write stamped `clock(k)`), computes the profile
     * of the history, which sorts the history array in place, and stores it
     * stamped `clock(n)`, n being the number of records.
     */
    method CalculateAndSave(clock: nat -> int)
      requires Valid()
      modifies this
      ensures Valid()
      ensures user.None? ==>
        interactionHistory == old(interactionHistory)
        && storedInteractions == old(storedInteractions) && userUpdates == old(userUpdates)
      ensures user.Some? ==>
        storedInteractions == old(storedInteractions) + StoredDocuments(old(interactionHistory), clock)
        && SameDimension(old(interactionHistory))
        && userUpdates == old(userUpdates)
          + [UserUpdate(ProfileVector(old(interactionHistory)), clock(|old(interactionHistory)|))]
        && interactionHistory == SortNewestFirst(old(interactionHistory))
      ensures currentIndex == old(currentIndex)
    {
      if user.None? {
        return;
      }
      StoreInteractions(clock);
      var hs := interactionHistory;
      WellFormedSameDimension(hs, user.value, dimension);
      SortWellFormed(hs, user.value, dimension);
      var histories := new InteractionRecord[|hs|](k requires 0 <= k < |hs| => hs[k]);
      assert histories[..] == hs;
      var userVector := GenerateUserProfileVector(histories);
      interactionHistory := histories[..];
      userUpdates := userUpdates + [UserUpdate(userVector, clock(|hs|))];
    }

    /** The loop of `addInteraction` calls: one document per record, in history order, the k-th stamped `clock(k)`. */
    method StoreInteractions(clock: nat -> int)
      requires Valid()
      modifies this
      ensures Valid()
      ensures storedInteractions == old(storedInteractions) + StoredDocuments(interactionHistory, clock)
      ensures interactionHistory == old(interactionHistory) && userUpdates == old(userUpdates)
      ensures currentIndex == old(currentIndex)
    {
      var i := 0;
      while i < |interactionHistory|
        invariant 0 <= i <= |interactionHistory|
        invariant storedInteractions == old(storedInteractions) + StoredDocuments(interactionHistory[..i], clock)
        invariant interactionHistory == old(interactionHistory) && userUpdates == old(userUpdates)
        invariant currentIndex == old(currentIndex)
      {
        StoredDocumentsStep(interactionHistory, clock, i);
        storedInteractions := storedInteractions + [StoredInteraction(interactionHistory[i], clock(i))];
        i := i + 1;
      }
      assert interactionHistory[..i] == interactionHistory;
    }

    /** The `useEffect` on `[currentIndex, events, onCalculateAndSave]`. */
    method TriggerEffect(clock: nat -> int)
      requires Valid()
      modifies this
      ensures Valid()
      ensures !old(DeckExhausted()) ==>
        interactionHistory == old(interactionHistory)
        && storedInteractions == old(storedInteractions) && userUpdates == old(userUpdates)
      ensures old(DeckExhausted()) && user.None? ==>
        interactionHistory == old(interactionHistory)
        && storedInteractions == old(storedInteractions) && userUpdates == old(userUpdates)
      ensures old(DeckExhausted()) && user.Some? ==>
        storedInteractions == old(storedInteractions) + StoredDocuments(old(interactionHistory), clock)
        && SameDimension(old(interactionHistory))
        && userUpdates == old(userUpdates)
          + [UserUpdate(ProfileVector(old(interactionHistory)), clock(|old(interactionHistory)|))]
        && interactionHistory == SortNewestFirst(old(interactionHistory))
      ensures currentIndex == old(currentIndex)
    {
      if events.Some? && currentIndex >= |events.value| {
        CalculateAndSave(clock);
      }
    }
  }

  /**
   * A right-then-left session over a two-event catalogue: the history holds a
   * like for the first event and a dislike for the second, and the third swipe
   * (past the end of the deck) is ignored.
   */
  method SwipeSession(e0: CatalogEvent, e1: CatalogEvent, uid: string, t0: int, t1: int)
    returns (hs: seq<InteractionRecord>)
    requires |e0.eventVector| == |e1.eventVector|
    ensures hs == [
      InteractionRecord(uid, e0.id, Like, e0.eventVector, t0),
      InteractionRecord(uid, e1.id, Dislike, e1.eventVector, t1)]
  {
    var s := new PreferencesSession(Some(uid), Some([e0, e1]), |e0.eventVector|);
    s.HandleSwipe(Right, t0);
    s.SetCurrentIndex(1);
    s.HandleSwipe(Left, t1);
    s.SetCurrentIndex(2);
    s.HandleSwipe(Right, t1 + 1);
    hs := s.interactionHistory;
  }
}
