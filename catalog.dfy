/** The sport and venue catalogue: the rules for creating sports and venues
    and the EventSports links a sport deletion removes. */
module Catalog {
  import opened Wrappers
  import opened Text
  import opened Entities

  /** The fee rule: free (zero, or a negative amount the check lets through)
      or between 200 and 5000. */
  predicate FeeAllowed(fee: real)
  {
    !(fee > 0.0 && (fee < 200.0 || fee > 5000.0))
  }

  /** A sport whose name equals `name` up to ASCII case is already listed. */
  predicate NameTaken(sports: map<Id, Sport>, name: string)
  {
    exists k :: k in sports && SameIgnoringCase(sports[k].name, name)
  }

  /** DELETE FROM EventSports WHERE sport_id = ?. */
  function WithoutSport(links: set<(Id, Id)>, sport: Id): (r: set<(Id, Id)>)
    ensures forall p :: p in r <==> p in links && p.1 != sport
  {
    set p | p in links && p.1 != sport
  }

  /** Deleting a sport's links leaves no event linked to it, splits the links
      into those kept and those of the sport, and deleting again changes
      nothing. */
  lemma WithoutSportPartitionsLinks(links: set<(Id, Id)>, sport: Id)
    ensures forall e :: (e, sport) !in WithoutSport(links, sport)
    ensures WithoutSport(links, sport) + (set p | p in links && p.1 == sport) == links
    ensures WithoutSport(links, sport) * (set p | p in links && p.1 == sport) == {}
    ensures WithoutSport(WithoutSport(links, sport), sport) == WithoutSport(links, sport)
  {
    var kept, dropped := WithoutSport(links, sport), set p | p in links && p.1 == sport;
    assert forall p :: p in kept + dropped <==> p in links;
    assert forall p :: p !in kept * dropped;
  }

  /** The Sports row a valid creation request inserts: a missing fee stored as
      0 and an empty status as "planned". */
  function NewSport(name: string, teamSize: int, maxSubs: int, fee: Option<real>, rules: string, status: string): Sport
  {
    Sport(name, teamSize, maxSubs, fee.GetOr(0.0), rules, if status == [] then "planned" else status)
  }

  /** The Venues row a valid creation request inserts: an empty location or
      contact and a zero capacity stored as NULL. */
  function NewVenue(name: string, location: string, capacity: Option<int>, contact: string, sport: Id): Venue
  {
    Venue(name, if location == [] then None else Some(location),
          if capacity == Some(0) then None else capacity,
          if contact == [] then None else Some(contact), Some(sport))
  }
}
