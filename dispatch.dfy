/** The command dispatch of advisor.cpp (main).

    The argument vector is a sequence of strings whose first element is the
    program name, so `|argv|` is argc. The dispatch picks one advisory and an
    exit status; for `rm -rf <folder>` it runs the folder analysis on the
    walk of that folder. */
module CommandDispatch {
  import opened FolderAnalysis

  /** Which advisory main prints. */
  datatype Action =
    | Usage                          // fewer than two arguments
    | PowerAdvisory(command: string) // reboot or shutdown
    | RemoveAdvisory(folder: string) // rm -rf <folder>, with the folder analysis
    | NotRecognized                  // every other command

  /** The chosen advisory and the status main returns. */
  datatype Outcome = Outcome(action: Action, exitCode: int)

  /** The commands that get the power-off advisory. */
  predicate IsPowerCommand(cmd: string) {
    cmd == "reboot" || cmd == "shutdown"
  }

  /** The branching of main over argc and argv. */
  function Dispatch(argv: seq<string>): (r: Outcome)
    // Only a missing command fails, with status 1; every other path returns 0.
    ensures r.exitCode == 1 <==> r.action == Usage
    ensures r.exitCode == 0 <==> r.action != Usage
    ensures r.action == Usage <==> |argv| < 2
    // reboot and shutdown select the power advisory, never the folder analysis.
    ensures r.action.PowerAdvisory? <==> |argv| >= 2 && IsPowerCommand(argv[1])
    ensures r.action.PowerAdvisory? ==> r.action.command == argv[1]
    // rm -rf runs the analysis on argv[3] exactly when all three conditions hold.
    ensures r.action.RemoveAdvisory? <==> |argv| >= 4 && argv[1] == "rm" && argv[2] == "-rf"
    ensures r.action.RemoveAdvisory? ==> r.action.folder == argv[3]
    // Anything else, including rm with another flag or too few arguments.
    ensures r.action == NotRecognized <==>
      && |argv| >= 2
      && !IsPowerCommand(argv[1])
      && !(argv[1] == "rm" && |argv| >= 4 && argv[2] == "-rf")
  {
    if |argv| < 2 then Outcome(Usage, 1)
    else
      var cmd := argv[1];
      if IsPowerCommand(cmd) then Outcome(PowerAdvisory(cmd), 0)
      else if cmd == "rm" && |argv| >= 4 && argv[2] == "-rf" then Outcome(RemoveAdvisory(argv[3]), 0)
      else Outcome(NotRecognized, 0)
  }

  /** main as a whole: dispatch, then, for rm -rf, the folder analysis over
      `walk(folder)`, the entries the recursive directory iterator yields for
      that folder. Returns the exit status and the numbers the analysis
      prints, if it ran. */
  method Run(argv: seq<string>, walk: string -> seq<Entry>) returns (exitCode: int, notice: Option<Notice>)
    ensures exitCode == Dispatch(argv).exitCode
    ensures exitCode == (if |argv| < 2 then 1 else 0)
    ensures notice.Some? <==> Dispatch(argv).action.RemoveAdvisory?
    ensures notice.Some? ==>
      var entries := walk(argv[3]);
      && notice.value.files == |RegularSizes(entries)|
      && notice.value.freedBytes == notice.value.largestBytes
      && IsMaxOrZero(notice.value.largestBytes, RegularSizes(entries))
  {
    var outcome := Dispatch(argv);
    exitCode, notice := outcome.exitCode, None;
    match outcome.action
    case RemoveAdvisory(folder) =>
      var fileCount, largestFile := AnalyzeFolder(walk(folder));
      notice := Some(NoticeOf(Tally(fileCount, largestFile)));
    case _ =>
  }
}
