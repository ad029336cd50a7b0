/** The rows of the portal's tables and the snapshot of the whole store. */
module Entities {
  import opened Wrappers
  import opened Dates
  import opened Roster
  import opened Standings

  /** An auto-increment row id (events, sports, venues, teams, players,
      matches, PointsTable rows) or a user id. */
  type Id = nat

  datatype EventStatus = Planned | RegistrationOpen | Active | Completed

  /** An Events row. `span` is start_date..end_date, `reg` is
      registration_start_date..registration_end_date, and `regStatus` is the
      cached registration_status column. */
  datatype Event = Event(name: string, span: Span, reg: Span, location: string, description: string,
                         status: EventStatus, regStatus: RegStatus)

  /** A Sports row; `fee` is registration_fee. */
  datatype Sport = Sport(name: string, teamSize: int, maxSubs: int, fee: real, rules: string, status: string)

  /** A Venues row; `sport` is the one sport the venue suits, if any. */
  datatype Venue = Venue(name: string, location: Option<string>, capacity: Option<int>,
                         contact: Option<string>, sport: Option<Id>)

  datatype TeamStatus = Pending | Approved | Rejected | Disqualified

  /** A Teams row; `logo` and `payment` are the stored upload paths. */
  datatype Team = Team(name: string, manager: Id, sport: Id, event: Id, logo: Option<string>,
                       payment: Option<string>, status: TeamStatus, rejectionReason: Option<string>)

  /** A Players row. */
  datatype PlayerRow = PlayerRow(team: Id, name: string, jersey: string, age: Option<int>,
                                 position: Option<string>, kind: PlayerKind)

  /** A match status; an update request may store any other string. */
  datatype MatchStatus = Scheduled | Live | MatchCompleted | Cancelled | OtherMatchStatus(raw: string)

  /** A match still to be played: the statuses the conflict and cancellation
      queries select with status IN ('scheduled', 'live'). */
  predicate InPlay(s: MatchStatus)
  {
    s == Scheduled || s == Live
  }

  /** A Matches row; `date` is match_date in minutes. */
  datatype Match = Match(event: Id, sport: Id, team1: Id, team2: Id, venue: Option<Id>,
                         date: Minute, status: MatchStatus)

  /** A Scores row, at most one per match; `winner` is NULL for a draw. */
  datatype Score = Score(team1Score: int, team2Score: int, winner: Option<Id>)

  /** A PointsTable row. */
  datatype PointsRow = PointsRow(event: Id, sport: Id, team: Id, stats: Stats)

  /** A TeamRegistrationHistory row. */
  datatype TeamLog = TeamLog(team: Id, action: string, actor: Id, notes: string)

  /** The change a MatchHistory row records. */
  datatype MatchChange =
    | Rescheduled(oldDate: Minute, newDate: Minute)
    | ScoreUpdated(old1: int, old2: int, new1: int, new2: int)

  /** A MatchHistory row. */
  datatype MatchLog = MatchLog(matchId: Id, actor: Id, change: MatchChange)

  /** Every table of the store, with the next value of each auto-increment
      counter. Scores are keyed by match id; EventSports is a set of
      (event, sport) links. */
  datatype Db = Db(
    events: map<Id, Event>, sports: map<Id, Sport>, venues: map<Id, Venue>,
    eventSports: set<(Id, Id)>, teams: map<Id, Team>, players: map<Id, PlayerRow>,
    matches: map<Id, Match>, scores: map<Id, Score>, points: map<Id, PointsRow>,
    teamLog: seq<TeamLog>, matchLog: seq<MatchLog>,
    nextEvent: Id, nextSport: Id, nextVenue: Id, nextTeam: Id, nextPlayer: Id,
    nextMatch: Id, nextPoints: Id)

  /** Why an endpoint refused a request. */
  datatype Error =
    // events
    | EventFieldsMissing | RegDatesMissing | InvalidDates(errors: seq<DateError>)
    | DateConflict(other: Id) | RegOverlap(other: Id)
    | EventNotFound | EventCompleted | RegistrationsAlreadyOpen | WrongEventStatus(status: EventStatus)
    | RegNotStartedYet | RegPeriodEnded | EventStarted | RegistrationsAlreadyClosed
    | PendingTeams | RegNotClosed | RequiresForce(current: Id) | NotActive | NotCompleted
    | HasCompletedMatches
    // sports, venues, event sports
    | SportNotFound | ApprovedTeamsExist | VenueNotFound | VenueInUse | SportAlreadyAdded
    | SportFieldsMissing | TeamSizeOutOfRange | FeeOutOfRange | DuplicateSportName
    | VenueNameMissing | VenueSportMissing
    // teams
    | RegistrationsNotOpen | RegistrationsClosed | BeforeRegStart | AfterRegEnd
    | PreviouslyDisqualified | AlreadyApproved | AlreadyPending
    | TeamNameTooShort | TeamNameTooLong | TeamNameLength | InvalidSport | PaymentRequired
    | InvalidRoster(roster: seq<RosterError>) | InvalidPlayer(field: FieldError)
    | TeamNotFound | AlreadyDisqualified | NotAuthorized | OnlyPendingTeams
    // matches and scores
    | SameTeams | VenueUnsuitable | VenueBusy | TooFewTeams | TeamsNotFound | TeamsNotApproved
    | OutsidePlayingHours | OutsideEventDates | TeamBusy
    | MatchFieldsMissing | ScoresMissing
    | MatchNotFound | MatchIsCompleted | MatchInPast | NegativeScore | ScoreTooHigh | TooEarly
}
