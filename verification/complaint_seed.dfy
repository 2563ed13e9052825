/**
  The three complaint records the in-memory store starts with.
 */
module ComplaintSeed {
  import opened Common
  import opened ComplaintStore

  /** The three records the store starts with, each stamped with its own
      clock readings. */
  function Seed(w: Stamps, p: Stamps, g: Stamps): (s: Store)
    ensures IdsConsecutive(s)
  {
    [Complaint(1, SeedWaterLeak(), w.created, w.updated),
     Complaint(2, SeedPothole(), p.created, p.updated),
     Complaint(3, SeedGarbage(), g.created, g.updated)]
  }

  /** The unfiltered newest-first listing of the seed depends on the clock:
      it reverses the store when the three creation times strictly
      increase, and keeps store order when they coincide. */
  lemma SeedListingOrder(w: Stamps, p: Stamps, g: Stamps)
    ensures var s := Seed(w, p, g);
      w.created < p.created < g.created ==> FindAll(s, NoFilters) == [s[2], s[1], s[0]]
    ensures var s := Seed(w, p, g);
      w.created == p.created == g.created ==> FindAll(s, NoFilters) == s
  {
    var s := Seed(w, p, g);
    if w.created < p.created < g.created {
      ListingOfThreeInCreationOrder(s);
    }
    if w.created == p.created == g.created {
      UnfilteredTied(s, w.created);
    }
  }

  lemma ListingOfThreeInCreationOrder(s: Store)
    requires |s| == 3 && s[0].createdAt < s[1].createdAt < s[2].createdAt
    ensures FindAll(s, NoFilters) == [s[2], s[1], s[0]]
  {
    assert Chronological(s);
    UnfilteredChronological(s);
    ReverseOfThree(s);
  }

  lemma ReverseOfThree(s: Store)
    requires |s| == 3
    ensures Reverse(s) == [s[2], s[1], s[0]]
  {
  }

  lemma UnfilteredChronological(s: Store)
    requires Chronological(s)
    ensures FindAll(s, NoFilters) == Reverse(s)
  {
    FilterKeepsAll(s, c => Matches(NoFilters, c));
    FindAllOnChronologicalStore(s, NoFilters);
  }

  lemma UnfilteredTied(s: Store, t: nat)
    requires forall i :: 0 <= i < |s| ==> s[i].createdAt == t
    ensures FindAll(s, NoFilters) == s
  {
    FilterKeepsAll(s, c => Matches(NoFilters, c));
    FindAllKeepsStoreOrderOnTies(s, NoFilters, t);
  }

  const WATER_LEAK_TEXT := "There's a major water leak on Main Street near the intersection with Oak Avenue. Water is flowing onto the road and creating a hazard for drivers."
  const POTHOLE_TEXT := "Pothole on Elm Street causing damage to vehicles. Need immediate repair."
  const GARBAGE_TEXT := "Garbage collection missed on Pine Street. Bins are overflowing."

  function SeedWaterLeak(): Fields
  {
    Fields(
      WATER_LEAK_TEXT,
      Some("https://example.com/water-leak.jpg"), "Water Management", "Water Management", "admin@water.gov",
      Some("In Progress"), Some("High"), "John Doe", NumberId(1), Some(1), Some("High"),
      Some("Main Street & Oak Avenue"), Some("+1234567890"))
  }

  function SeedPothole(): Fields
  {
    Fields(
      POTHOLE_TEXT,
      Some("https://example.com/pothole.jpg"), "Road & Safety", "Road & Safety", "admin@roads.gov",
      Some("Pending"), Some("Medium"), "Jane Smith", NumberId(2), Some(2), Some("Medium"),
      Some("Elm Street"), Some("+1234567891"))
  }

  function SeedGarbage(): Fields
  {
    Fields(
      GARBAGE_TEXT,
      Some("https://example.com/garbage.jpg"), "Waste Management", "Waste Management", "admin@waste.gov",
      Some("Resolved"), Some("Low"), "Mike Johnson", NumberId(1), Some(5), Some("Medium"),
      Some("Pine Street"), Some("+1234567892"))
  }
}
