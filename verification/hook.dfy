/**
 * mdnsserve_group_hook: what the daemon does when mdnsd reports an event on
 * one of its groups. Only a group that mdnsd no longer knows shuts the
 * daemon down; every other event, including codes the hook does not know,
 * is logged and the daemon carries on.
 */
module GroupHook {

  /** The group events of the mdns client library. Their numeric codes are
      not part of this model: `Other` stands for every code the hook does not
      name. */
  datatype GroupEvent =
    | ErrCollision
    | ErrNotFound
    | ErrDoubleAdd
    | Probing
    | Announcing
    | Published
    | Other(code: int)

  datatype Level = Debug | Notice | Warning

  /** What a log line of the hook reports, without its wording. */
  datatype Report =
    | NotPublishedCollision(group: string)
    | NotPublishedDoubleAdd(group: string)
    | ProbingGroup(group: string)
    | AnnouncingGroup(group: string)
    | PublishedGroup(group: string)
    | UnhandledEvent(code: int)

  datatype Action =
    | Continue(level: Level, report: Report)
    | ShutDown(group: string)     // the fatal "not found, shutting down"

  /** An event that says the group could not be published. */
  predicate IsError(e: GroupEvent) {
    e.ErrCollision? || e.ErrNotFound? || e.ErrDoubleAdd?
  }

  /** The event the hook names, for the group the report is about. */
  function Reports(r: Report, e: GroupEvent, group: string): bool {
    match r
    case NotPublishedCollision(g) => e == ErrCollision && g == group
    case NotPublishedDoubleAdd(g) => e == ErrDoubleAdd && g == group
    case ProbingGroup(g) => e == Probing && g == group
    case AnnouncingGroup(g) => e == Announcing && g == group
    case PublishedGroup(g) => e == Published && g == group
    case UnhandledEvent(c) => e == Other(c)
  }

  /**
   * mdnsserve_group_hook(mdns, event, group). Only ErrNotFound is fatal;
   * the other errors and unknown codes are warnings, the progress events
   * are debug lines, and publication is a notice.
   */
  function Hook(e: GroupEvent, group: string): (r: Action)
    ensures r.ShutDown? <==> e == ErrNotFound
    ensures r.ShutDown? ==> r.group == group
    ensures r.Continue? ==> Reports(r.report, e, group)
    ensures r.Continue? ==> (r.level == Warning <==> IsError(e) || e.Other?)
    ensures r.Continue? ==> (r.level == Debug <==> e == Probing || e == Announcing)
  {
    match e
    case ErrCollision => Continue(Warning, NotPublishedCollision(group))
    case ErrNotFound => ShutDown(group)
    case ErrDoubleAdd => Continue(Warning, NotPublishedDoubleAdd(group))
    case Probing => Continue(Debug, ProbingGroup(group))
    case Announcing => Continue(Debug, AnnouncingGroup(group))
    case Published => Continue(Notice, PublishedGroup(group))
    case Other(code) => Continue(Warning, UnhandledEvent(code))
  }

  /** The report of a continuing event determines the event: no two events
      leave the same line. */
  lemma ReportsIdentifyEvent(e1: GroupEvent, e2: GroupEvent, group: string)
    requires Hook(e1, group).Continue? && Hook(e2, group).Continue?
    requires Hook(e1, group).report == Hook(e2, group).report
    ensures e1 == e2
  {
    var r := Hook(e1, group).report;
    assert Reports(r, e1, group) && Reports(r, e2, group);
  }
}
