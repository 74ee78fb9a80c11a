/** The in-memory part of `StateManager`: the per-file migration status map
    that the executor consults to skip files converted in an earlier run. */
module StateManager {
  import opened Wrappers

  /** `MigrationStatus`. */
  datatype Status = PENDING | COMPLETED | ERROR | SKIPPED

  class StateManager {
    /** `state.fileStatus`: file path to the status last recorded for it. */
    var fileStatus: map<string, Status>

    /** A fresh state, as `_loadState` builds when no state file exists. */
    constructor ()
      ensures fileStatus == map[]
      ensures forall p :: GetStatus(p) == PENDING && !IsConverted(p)
    {
      fileStatus := map[];
    }

    /** `getStatus`: the recorded status, `PENDING` for a file never recorded. */
    function GetStatus(filePath: string): (st: Status)
      reads this
      ensures filePath in fileStatus ==> st == fileStatus[filePath]
      ensures filePath !in fileStatus ==> st == PENDING
    {
      if filePath in fileStatus then fileStatus[filePath] else PENDING
    }

    /** `isConverted`: the recorded status is `COMPLETED`; a file never
        recorded is not converted. */
    function IsConverted(filePath: string): (b: bool)
      reads this
      ensures b <==> GetStatus(filePath) == COMPLETED
    {
      filePath in fileStatus && fileStatus[filePath] == COMPLETED
    }

    /** `updateStatus`: records `status` for `filePath` and nothing else;
        the error message is reported, not stored. */
    method UpdateStatus(filePath: string, status: Status, errorMsg: Option<string>)
      modifies this
      ensures fileStatus == old(fileStatus)[filePath := status]
      ensures GetStatus(filePath) == status
      ensures forall p :: p != filePath ==> GetStatus(p) == old(GetStatus(p))
    {
      fileStatus := fileStatus[filePath := status];
    }

    /** `markAsComplete`: afterwards the file counts as converted. */
    method MarkAsComplete(filePath: string)
      modifies this
      ensures fileStatus == old(fileStatus)[filePath := COMPLETED]
      ensures IsConverted(filePath)
    {
      UpdateStatus(filePath, COMPLETED, None);
    }

    /** `markAsError`: afterwards the file is in error and not converted. */
    method MarkAsError(filePath: string, errorMsg: string)
      modifies this
      ensures fileStatus == old(fileStatus)[filePath := ERROR]
      ensures GetStatus(filePath) == ERROR && !IsConverted(filePath)
    {
      UpdateStatus(filePath, ERROR, Some(errorMsg));
    }
  }
}
