/**
 What the route settings screen does once the route model has been saved
 on leaving the screen: when the packet tunnel is connected it is stopped
 and, after a short pause, started again so that it picks up the new
 rules; in every other state nothing is done. A failing start is only
 logged: there is no retry and no error reaches the user.

 The tunnel manager is not part of this model. The decision is modelled
 as the list of requests it issues, and `Run` is a simplified stand-in for
 how the tunnel reacts to them, in which a stop goes straight to
 disconnected; it serves only to state the observable outcome.
 */
module Reconcile {

  datatype Option<T> = None | Some(value: T)

  /** The states of a VPN connection as the tunnel manager reports them. */
  datatype Status = Invalid | Disconnected | Connecting | Connected | Reasserting | Disconnecting

  /** A request issued to the tunnel manager, or a pause between requests. */
  datatype Command = Stop | Sleep(ms: nat) | Start

  /** The pause between stopping and restarting the tunnel, in milliseconds. */
  const RestartDelayMs: nat := 500

  /** Total pause of a run of commands. */
  function Delay(commands: seq<Command>): nat
  {
    if commands == [] then 0
    else (if commands[0].Sleep? then commands[0].ms else 0) + Delay(commands[1..])
  }

  /** The requests issued after a save, given the tunnel status read then
      (absent when the manager has no configuration loaded). */
  function Plan(status: Option<Status>): (plan: seq<Command>)
    ensures plan != [] <==> status == Some(Connected)
    ensures status == Some(Connected) ==> Stop in plan
    ensures Stop in plan <==> Start in plan
    ensures multiset(plan)[Stop] <= 1 && multiset(plan)[Start] <= 1
    ensures forall i, j :: 0 <= i < |plan| && 0 <= j < |plan| && plan[i] == Stop && plan[j] == Start
              ==> i < j && Delay(plan[i + 1..j]) >= RestartDelayMs
  {
    if status == Some(Connected) then
      var plan := [Stop, Sleep(RestartDelayMs), Start];
      assert plan[1..2] == [Sleep(RestartDelayMs)];
      plan
    else []
  }

  /** How the tunnel answers each request, with `startSucceeds` standing for
      whether starting throws. */
  function Step(status: Status, command: Command, startSucceeds: bool): Status
  {
    match command
    case Stop => Disconnected
    case Sleep(_) => status
    case Start => if startSucceeds then Connected else Disconnected
  }

  function Run(status: Status, commands: seq<Command>, startSucceeds: bool): Status
    decreases |commands|
  {
    if commands == [] then status
    else Run(Step(status, commands[0], startSucceeds), commands[1..], startSucceeds)
  }

  /** Under the stand-in `Run`: a connected tunnel ends connected again when
      the restart succeeds and stays stopped when it fails, since the plan
      starts it once with no retry; a tunnel in any other state is left as
      it is. The end states come from `Step`, not from the tunnel manager. */
  lemma PlanOutcome(status: Status, startSucceeds: bool)
    ensures Run(status, Plan(Some(status)), startSucceeds)
            == if status != Connected then status
               else if startSucceeds then Connected
               else Disconnected
  {
    if status == Connected {
      var plan := Plan(Some(status));
      var afterStop := [Sleep(RestartDelayMs), Start];
      assert plan == [Stop] + afterStop;
      assert afterStop[1..] == [Start];
      assert [Start][1..] == [];
      var stopped := Step(status, Stop, startSucceeds);
      assert Run(stopped, [Start], startSucceeds) == Step(stopped, Start, startSucceeds);
      assert Run(stopped, afterStop, startSucceeds) == Run(stopped, [Start], startSucceeds);
    }
  }
}
