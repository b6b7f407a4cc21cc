/** The record of completed lessons kept in browser storage, as a pure store:
    the storage entry, whether the code runs in a browser and whether a write
    succeeds are inputs; the clock reading is an opaque timestamp string. */
module Completion {
  import Lessons

  /** What the storage entry for completed lessons holds when it is read. */
  datatype Stored =
    | Absent                                   // no entry, or an empty one
    | Malformed                                // text that does not parse
    | Record(entries: map<string, string>)     // lesson id to completion time

  /** The completed lessons as read: the stored record, or an empty one in every other case. */
  function GetCompletedLessons(browser: bool, stored: Stored): (r: map<string, string>)
    ensures !browser ==> r == map[]
    ensures !stored.Record? ==> r == map[]
    ensures browser && stored.Record? ==> r == stored.entries
  {
    if !browser then map[]
    else match stored
      case Absent => map[]
      case Malformed => map[]
      case Record(entries) => entries
  }

  /** The one name whose assignment on a plain object goes to an inherited setter. */
  const ProtoName: string := "__proto__"

  /**
   * The storage after marking `lessonId` completed at time `now`. Outside a
   * browser, or when the write fails, storage keeps what it had; otherwise it
   * holds the record as read with the one entry set. Assigning `__proto__` on an
   * object that lacks it as its own key reaches the `Object.prototype` setter,
   * which ignores a string, so the record is written back without that entry.
   */
  function SaveCompletedLesson(browser: bool, stored: Stored, lessonId: string, now: string, written: bool): (r: Stored)
    ensures !browser || !written ==> r == stored
    ensures browser && written ==> r.Record?
    ensures browser && written ==>
              (lessonId in r.entries <==> lessonId != ProtoName || lessonId in GetCompletedLessons(browser, stored))
    ensures browser && written && lessonId in r.entries ==> r.entries[lessonId] == now
    ensures browser && written ==>
              forall k :: k != lessonId ==>
                (k in r.entries <==> k in GetCompletedLessons(browser, stored)) &&
                (k in r.entries ==> r.entries[k] == GetCompletedLessons(browser, stored)[k])
  {
    if !browser || !written then stored
    else
      var completed := GetCompletedLessons(browser, stored);
      if lessonId == ProtoName && lessonId !in completed then Record(completed)
      else Record(completed[lessonId := now])
  }

  /**
   * A lesson counts as completed when the record as read holds a non-empty
   * completion time for it as its own entry.
   */
  function IsLessonCompleted(browser: bool, stored: Stored, lessonId: string): (b: bool)
    ensures b ==> browser && stored.Record? && lessonId in stored.entries
    ensures browser && stored.Record? && lessonId in stored.entries ==> (b <==> stored.entries[lessonId] != "")
  {
    var completed := GetCompletedLessons(browser, stored);
    lessonId in completed && completed[lessonId] != ""
  }

  // ------------------------------------------------------------ lookups on a plain object

  /**
   * Names every plain JavaScript object inherits from `Object.prototype`; reading
   * any of them from an object that lacks the name as its own key gives a truthy value.
   */
  const InheritedNames: set<string> := {
    "constructor", "hasOwnProperty", "isPrototypeOf", "propertyIsEnumerable",
    "toLocaleString", "toString", "valueOf", "__proto__",
    "__defineGetter__", "__defineSetter__", "__lookupGetter__", "__lookupSetter__"
  }

  /**
   * The check as the code performs it: `!!completed[lessonId]` on the object
   * read from storage, which falls through to the inherited names.
   */
  function IsLessonCompletedAsWritten(browser: bool, stored: Stored, lessonId: string): (b: bool)
    ensures lessonId !in InheritedNames || lessonId in GetCompletedLessons(browser, stored) ==>
              b == IsLessonCompleted(browser, stored, lessonId)
    ensures lessonId in InheritedNames && lessonId !in GetCompletedLessons(browser, stored) ==> b
  {
    var completed := GetCompletedLessons(browser, stored);
    if lessonId in completed then completed[lessonId] != "" else lessonId in InheritedNames
  }

  /** An inherited name reads as completed on an empty store, even outside a browser. */
  lemma InheritedNameReadsAsCompleted(lessonId: string)
    requires lessonId == "constructor"
    ensures IsLessonCompletedAsWritten(false, Absent, lessonId)
    ensures !IsLessonCompleted(false, Absent, lessonId)
  {
  }

  /** No catalog id is an inherited name, so for catalog lessons the check as written is correct. */
  lemma CatalogIdsAreNotInherited()
    ensures forall l :: l in Lessons.Catalog ==> l.id !in InheritedNames
    ensures forall l, browser, stored :: l in Lessons.Catalog ==>
              IsLessonCompletedAsWritten(browser, stored, l.id) == IsLessonCompleted(browser, stored, l.id)
  {
    Lessons.CatalogIdsListed();
    ListedIdsNotInherited();
  }

  lemma ListedIdsNotInherited()
    ensures forall i :: 0 <= i < |Lessons.CatalogIds| ==> Lessons.CatalogIds[i] !in InheritedNames
  {
  }

  // ------------------------------------------------------------ store laws

  /** Outside a browser nothing is ever completed, whatever storage holds. */
  lemma NothingCompletedOutsideBrowser(stored: Stored, lessonId: string)
    ensures GetCompletedLessons(false, stored) == map[]
    ensures !IsLessonCompleted(false, stored, lessonId)
  {
  }

  /** A lesson absent from the record as read is not completed. */
  lemma AbsentIsNotCompleted(browser: bool, stored: Stored, lessonId: string)
    requires lessonId !in GetCompletedLessons(browser, stored)
    ensures !IsLessonCompleted(browser, stored, lessonId)
  {
  }

  /**
   * After a successful save with a real timestamp the lesson reads as completed,
   * except under `__proto__` when the record does not already hold it.
   */
  lemma SaveThenCompleted(stored: Stored, lessonId: string, now: string)
    requires now != ""
    ensures IsLessonCompleted(true, SaveCompletedLesson(true, stored, lessonId, now, true), lessonId)
        <==> lessonId != ProtoName || lessonId in GetCompletedLessons(true, stored)
  {
  }

  /** Saving under `__proto__` into a record without that key leaves the record as read. */
  lemma ProtoSaveIsLost(stored: Stored, now: string)
    requires ProtoName !in GetCompletedLessons(true, stored)
    ensures SaveCompletedLesson(true, stored, ProtoName, now, true) == Record(GetCompletedLessons(true, stored))
    ensures !IsLessonCompleted(true, SaveCompletedLesson(true, stored, ProtoName, now, true), ProtoName)
  {
  }

  /** Every catalog lesson reads as completed after a successful save of it. */
  lemma CatalogSaveThenCompleted(stored: Stored, l: Lessons.Lesson, now: string)
    requires l in Lessons.Catalog && now != ""
    ensures IsLessonCompleted(true, SaveCompletedLesson(true, stored, l.id, now, true), l.id)
  {
    CatalogIdsAreNotInherited();
    assert ProtoName in InheritedNames;
    SaveThenCompleted(stored, l.id, now);
  }

  /** Saving one lesson leaves the completion of every other lesson as it was. */
  lemma SaveKeepsOthers(browser: bool, stored: Stored, lessonId: string, other: string, now: string, written: bool)
    requires other != lessonId
    ensures IsLessonCompleted(browser, SaveCompletedLesson(browser, stored, lessonId, now, written), other)
         == IsLessonCompleted(browser, stored, other)
  {
    var after := SaveCompletedLesson(browser, stored, lessonId, now, written);
    if browser && written {
      var completed := GetCompletedLessons(browser, stored);
      if lessonId == ProtoName && lessonId !in completed {
        assert GetCompletedLessons(browser, after) == completed;
      } else {
        assert GetCompletedLessons(browser, after) == completed[lessonId := now];
      }
    }
  }

  /** Saving the same lesson at the same time twice is saving it once. */
  lemma SaveIdempotent(browser: bool, stored: Stored, lessonId: string, now: string, written: bool)
    ensures var once := SaveCompletedLesson(browser, stored, lessonId, now, written);
            SaveCompletedLesson(browser, once, lessonId, now, written) == once
  {
  }

  /** Successful saves of two different lessons give the same record in either order. */
  lemma SavesCommute(stored: Stored, a: string, b: string, ta: string, tb: string)
    requires a != b
    ensures SaveCompletedLesson(true, SaveCompletedLesson(true, stored, a, ta, true), b, tb, true)
         == SaveCompletedLesson(true, SaveCompletedLesson(true, stored, b, tb, true), a, ta, true)
  {
    var m := GetCompletedLessons(true, stored);
    assert m[a := ta][b := tb] == m[b := tb][a := ta];
  }

  /** A save over a malformed entry replaces it by a record holding only that lesson. */
  lemma SaveOverMalformed(lessonId: string, now: string)
    ensures lessonId != ProtoName ==> SaveCompletedLesson(true, Malformed, lessonId, now, true) == Record(map[lessonId := now])
    ensures lessonId == ProtoName ==> SaveCompletedLesson(true, Malformed, lessonId, now, true) == Record(map[])
  {
  }
}
