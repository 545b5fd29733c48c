/**
 * The touch lock of assets/script/manager/locker.ts: a set of lock tokens (touch input is
 * disabled while it is non-empty) and a stack of saved sets. The module-level state
 * becomes one `Locker` object; the random token generator becomes a token parameter.
 */
module Locker {
  import opened Wrappers

  /** Every saved set with `uid` taken out. */
  function WithoutToken(stash: seq<set<string>>, uid: string): (r: seq<set<string>>)
    ensures |r| == |stash|
    ensures forall i :: 0 <= i < |r| ==> r[i] == stash[i] - {uid}
  {
    if stash == [] then [] else WithoutToken(stash[..|stash| - 1], uid) + [stash[|stash| - 1] - {uid}]
  }

  /** Once taken out, `uid` is in no saved set; a token in no saved set changes nothing. */
  lemma WithoutTokenGone(stash: seq<set<string>>, uid: string)
    ensures forall i :: 0 <= i < |stash| ==> uid !in WithoutToken(stash, uid)[i]
    ensures (forall i :: 0 <= i < |stash| ==> uid !in stash[i]) ==> WithoutToken(stash, uid) == stash
  {
    var r := WithoutToken(stash, uid);
    if forall i :: 0 <= i < |stash| ==> uid !in stash[i] {
      assert forall i :: 0 <= i < |stash| ==> r[i] == stash[i];
    }
  }

  /** The handle `disableTouch` returns: calling it deletes its token from the current set. */
  datatype Release = Release(uid: string)

  /** How the method wrapped by `touchLocker` ends: it returns, it throws, or it returns a promise. */
  datatype CallEnd = Returns | Throws | ReturnsPromise

  class Locker {
    var lockerData: set<string>
    var stash: seq<set<string>>

    constructor()
      ensures lockerData == {} && stash == []
    {
      lockerData := {};
      stash := [];
    }

    /** `isTouchLocked`: some token is held. */
    predicate IsTouchLocked()
      reads this
    {
      |lockerData| > 0
    }

    /** `stashLocker`: saves a copy of the current set and empties it. */
    method StashLocker()
      modifies this
      ensures stash == old(stash) + [old(lockerData)]
      ensures lockerData == {}
      ensures !IsTouchLocked()
    {
      stash := stash + [lockerData];
      lockerData := {};
    }

    /** `unstashLocker`: empties the current set and refills it from the top saved set, if any. */
    method UnstashLocker()
      modifies this
      ensures old(stash) == [] ==> lockerData == {} && stash == []
      ensures old(stash) != [] ==>
        lockerData == old(stash)[|old(stash)| - 1] && stash == old(stash)[..|old(stash)| - 1]
    {
      lockerData := {};
      if |stash| > 0 {
        var top := stash[|stash| - 1];
        stash := stash[..|stash| - 1];
        var rest := top;
        while rest != {}
          invariant lockerData + rest == top && lockerData !! rest
          invariant stash == old(stash)[..|old(stash)| - 1]
          decreases |rest|
        {
          var v :| v in rest;
          lockerData := lockerData + {v};
          rest := rest - {v};
        }
      }
    }

    /** `disableTouch` with the fresh token `uid`: holds it and returns its release. */
    method DisableTouch(uid: string) returns (release: Release)
      modifies this
      ensures lockerData == old(lockerData) + {uid} && stash == old(stash)
      ensures release == Release(uid)
      ensures IsTouchLocked()
    {
      lockerData := lockerData + {uid};
      release := Release(uid);
    }

    /** Calling a release: deletes its token from the current set only. */
    method CallRelease(release: Release)
      modifies this
      ensures lockerData == old(lockerData) - {release.uid} && stash == old(stash)
    {
      lockerData := lockerData - {release.uid};
    }

    /** `unlock(uid)`: deletes the token from the current set and from every saved set. */
    method Unlock(uid: string)
      modifies this
      ensures lockerData == old(lockerData) - {uid}
      ensures stash == WithoutToken(old(stash), uid)
    {
      lockerData := lockerData - {uid};
      var i := 0;
      while i < |stash|
        invariant 0 <= i <= |stash| == |old(stash)|
        invariant lockerData == old(lockerData) - {uid}
        invariant forall j :: 0 <= j < i ==> stash[j] == old(stash)[j] - {uid}
        invariant forall j :: i <= j < |stash| ==> stash[j] == old(stash)[j]
      {
        stash := stash[i := stash[i] - {uid}];
        i := i + 1;
      }
    }

    /**
     * A method wrapped by `touchLocker`, called with the fresh token `uid`: the token is
     * held during the call. A method that returns normally has its token unlocked at once;
     * one that throws never reaches the unlock, so its token stays held; for one that
     * returns a promise the token is returned, to be unlocked only if the promise fulfils.
     */
    method TouchLocked(uid: string, end: CallEnd) returns (pending: Option<string>)
      requires uid !in lockerData && forall i :: 0 <= i < |stash| ==> uid !in stash[i]
      modifies this
      ensures end == Returns ==> lockerData == old(lockerData) && stash == old(stash) && pending == None
      ensures end == Throws ==> lockerData == old(lockerData) + {uid} && stash == old(stash) && pending == None
      ensures end == ReturnsPromise ==>
        lockerData == old(lockerData) + {uid} && stash == old(stash) && pending == Some(uid)
      ensures end != Returns ==> IsTouchLocked()
    {
      lockerData := lockerData + {uid};
      if end == ReturnsPromise {
        pending := Some(uid);
      } else if end == Throws {
        pending := None;
      } else {
        WithoutTokenGone(stash, uid);
        Unlock(uid);
        pending := None;
      }
    }
  }

  /** Stashing and then unstashing restores the current set and the saved stack. */
  method StashThenUnstash(l: Locker)
    modifies l
    ensures l.lockerData == old(l.lockerData) && l.stash == old(l.stash)
  {
    l.StashLocker();
    l.UnstashLocker();
    assert (old(l.stash) + [old(l.lockerData)])[..|old(l.stash)|] == old(l.stash);
  }

  /** A promise that fulfils unlocks its token and leaves the lock state as before the call. */
  method TouchLockedPromise(l: Locker, uid: string)
    requires uid !in l.lockerData && forall i :: 0 <= i < |l.stash| ==> uid !in l.stash[i]
    modifies l
    ensures l.lockerData == old(l.lockerData) && l.stash == old(l.stash)
  {
    var pending := l.TouchLocked(uid, ReturnsPromise);
    WithoutTokenGone(l.stash, uid);
    l.Unlock(pending.value);
  }

  /**
   * A promise that rejects never runs the `then` callback: its token stays held and touch
   * stays locked until something else unlocks it.
   */
  method TouchLockedRejected(l: Locker, uid: string) returns (held: string)
    requires uid !in l.lockerData && forall i :: 0 <= i < |l.stash| ==> uid !in l.stash[i]
    modifies l
    ensures held == uid && held in l.lockerData && l.IsTouchLocked()
    ensures l.lockerData == old(l.lockerData) + {uid} && l.stash == old(l.stash)
  {
    var pending := l.TouchLocked(uid, ReturnsPromise);
    held := pending.value;
  }
}
