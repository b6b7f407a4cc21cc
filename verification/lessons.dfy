/** The built-in lesson catalog and lookup by id. */
module Lessons {
  import opened Options

  /** The language every lesson teaches unless told otherwise. */
  const DefaultLanguage: string := "Spanish"

  datatype Lesson = Lesson(
    id: string,
    title: string,
    description: string,
    difficulty: string,
    language: string,
    estimatedMinutes: nat,
    scenario: string,
    goal: string)

  const CafeOrdering: Lesson := Lesson("cafe-ordering",
    "Ordering at a Café",
    "Learn how to order food and drinks at a café or restaurant.",
    "superbeginnersokeepitto2or3words",
    "Spanish",
    5,
    "You are at a café in Madrid and want to order something to eat and drink.",
    "Successfully order a meal and understand the server's responses.")

  const TrainStation: Lesson := Lesson("train-station",
    "At the Train Station",
    "Learn how to buy tickets and navigate a train station.",
    "intermediate",
    "Spanish",
    8,
    "You are at a busy train station in Barcelona and need to buy tickets for your journey.",
    "Purchase the correct tickets and find your platform.")

  const BusinessMeeting: Lesson := Lesson("business-meeting",
    "Business Meeting",
    "Learn how to participate in a business meeting and discuss project updates.",
    "advanced",
    "Spanish",
    10,
    "You are attending a business meeting with colleagues to discuss a new project.",
    "Introduce yourself, discuss your ideas, and understand others' contributions.")

  const GroceryShopping: Lesson := Lesson("grocery-shopping",
    "Grocery Shopping",
    "Learn how to shop for groceries and interact with store employees.",
    "beginner",
    "Spanish",
    6,
    "You are shopping for ingredients to make dinner at a local grocery store.",
    "Get the user to decide what what there going to make for dinner, make a shopping list, tell them theyre at the store now, and have them check the items out.")

  const DoctorVisit: Lesson := Lesson("doctor-visit",
    "Doctor's Appointment",
    "Learn how to describe symptoms and understand medical advice.",
    "intermediate",
    "Spanish",
    9,
    "You are visiting a doctor because you have been feeling unwell.",
    "Explain your symptoms and understand the doctor's diagnosis and instructions.")

  const HotelCheckin: Lesson := Lesson("hotel-checkin",
    "Hotel Check-in",
    "Learn how to check in to a hotel and request amenities.",
    "beginner",
    "Spanish",
    5,
    "You have just arrived at your hotel in Valencia after a long journey and need to check in.",
    "Complete the check-in process and ask about hotel facilities.")

  /** The six lessons, in catalog order. */
  const Catalog: seq<Lesson> :=
    [CafeOrdering, TrainStation, BusinessMeeting, GroceryShopping, DoctorVisit, HotelCheckin]

  /** The catalog's ids, in catalog order. */
  const CatalogIds: seq<string> :=
    ["cafe-ordering", "train-station", "business-meeting", "grocery-shopping", "doctor-visit", "hotel-checkin"]

  lemma CatalogIdsListed()
    ensures |Catalog| == |CatalogIds| == 6
    ensures forall i :: 0 <= i < 6 ==> Catalog[i].id == CatalogIds[i]
  {
  }

  /** No two lessons of `ls` share an id. */
  predicate DistinctIds(ls: seq<Lesson>) {
    forall i, j :: 0 <= i < j < |ls| ==> ls[i].id != ls[j].id
  }

  /**
   * The first lesson of `ls` whose id is `id` (JavaScript's `Array.prototype.find`),
   * or nothing when no lesson has that id.
   */
  function FindLesson(ls: seq<Lesson>, id: string): (r: Option<Lesson>)
    ensures r.None? <==> forall i :: 0 <= i < |ls| ==> ls[i].id != id
    ensures r.Some? ==> exists i :: 0 <= i < |ls| && ls[i] == r.value &&
                          (forall j :: 0 <= j < i ==> ls[j].id != id)
    ensures r.Some? ==> r.value.id == id
  {
    if |ls| == 0 then None
    else if ls[0].id == id then Some(ls[0])
    else
      var rest := FindLesson(ls[1..], id);
      if rest.Some? then
        ghost var i :| 0 <= i < |ls| - 1 && ls[1..][i] == rest.value && (forall j :: 0 <= j < i ==> ls[1..][j].id != id);
        assert ls[i + 1] == rest.value;
        assert forall j :: 0 <= j < i + 1 ==> ls[j].id != id by {
          forall j | 0 <= j < i + 1 ensures ls[j].id != id {
            if j > 0 { assert ls[j] == ls[1..][j - 1]; }
          }
        }
        rest
      else
        assert forall i :: 0 <= i < |ls| ==> ls[i].id != id by {
          forall i | 0 <= i < |ls| ensures ls[i].id != id {
            if i > 0 { assert ls[i] == ls[1..][i - 1]; }
          }
        }
        rest
  }

  /** The catalog lesson with id `id`, or nothing; there is no fallback lesson. */
  function GetLessonById(id: string): (r: Option<Lesson>)
    ensures r.Some? ==> r.value in Catalog && r.value.id == id
    ensures r.None? <==> forall l :: l in Catalog ==> l.id != id
  {
    FindLesson(Catalog, id)
  }

  /** When ids are distinct, finding a member's id gives back that member. */
  lemma FindDistinct(ls: seq<Lesson>, i: nat)
    requires DistinctIds(ls)
    requires i < |ls|
    ensures FindLesson(ls, ls[i].id) == Some(ls[i])
  {
    var r := FindLesson(ls, ls[i].id);
    var k :| 0 <= k < |ls| && ls[k] == r.value && (forall j :: 0 <= j < k ==> ls[j].id != ls[i].id);
  }

  /** The six catalog ids are pairwise different, so lookup by id is unambiguous. */
  lemma CatalogIdsDistinct()
    ensures |Catalog| == 6
    ensures DistinctIds(Catalog)
  {
    CatalogIdsListed();
    ListedIdsDistinct();
  }

  lemma ListedIdsDistinct()
    ensures |CatalogIds| == 6
    ensures forall i, j :: 0 <= i < j < 6 ==> CatalogIds[i] != CatalogIds[j]
  {
    assert forall i :: 0 <= i < 6 ==> CatalogIds[i][0] == "ctbgdh"[i];
  }

  /** Every catalog lesson teaches the default language. */
  lemma CatalogAllSpanish()
    ensures forall l :: l in Catalog ==> l.language == DefaultLanguage
  {
  }

  /** Looking up any catalog lesson's id gives back exactly that lesson. */
  lemma LookupFindsEveryCatalogLesson()
    ensures forall i :: 0 <= i < |Catalog| ==> GetLessonById(Catalog[i].id) == Some(Catalog[i])
  {
    CatalogIdsDistinct();
    forall i | 0 <= i < |Catalog|
      ensures GetLessonById(Catalog[i].id) == Some(Catalog[i])
    {
      FindDistinct(Catalog, i);
    }
  }

  /** An id no lesson carries finds nothing. */
  lemma UnknownIdFindsNothing(id: string)
    requires id == "airport"
    ensures GetLessonById(id) == None
  {
  }
}
