/** ArchiveProgressService: the last reported percentage of each account's
    archive run and the set of accounts whose run is marked active. Both
    dictionaries are keyed by the account id as a string. */
module ArchiveProgress {

  class ArchiveProgressService {
    /** _progressDictionary */
    var progress: map<string, int>
    /** _activeJobs */
    var activeJobs: map<string, bool>

    /** Only `true` is ever stored in _activeJobs: marking a job as not
        running removes its entry. */
    ghost predicate Valid()
      reads this
    {
      forall id :: id in activeJobs ==> activeJobs[id]
    }

    constructor ()
      ensures Valid()
      ensures progress == map[] && activeJobs == map[]
    {
      progress := map[];
      activeJobs := map[];
    }

    /** The stored percentage, or 0 for an account without one. */
    function GetProgress(imapId: string): (p: int)
      reads this
      ensures imapId !in progress ==> p == 0
      ensures imapId in progress ==> p == progress[imapId]
    {
      if imapId in progress then progress[imapId] else 0
    }

    /** A job runs when its entry is present and true; since only true is
        ever stored, that is when its entry is present. */
    predicate IsJobRunning(imapId: string): (running: bool)
      reads this
      ensures running ==> imapId in activeJobs
      ensures Valid() ==> (running <==> imapId in activeJobs)
    {
      imapId in activeJobs && activeJobs[imapId]
    }

    /** The ids whose entry is true, in no particular order. */
    function GetActiveJobs(): (ids: set<string>)
      reads this
      ensures forall id :: id in ids <==> IsJobRunning(id)
    {
      set id | id in activeJobs && activeJobs[id]
    }

    /** The indexer assignment: the value is stored as given, without clamping. */
    method SetProgress(imapId: string, value: int)
      modifies this
      ensures progress == old(progress)[imapId := value]
      ensures activeJobs == old(activeJobs)
      ensures GetProgress(imapId) == value
      ensures forall other :: other != imapId ==> GetProgress(other) == old(GetProgress(other))
    {
      progress := progress[imapId := value];
    }

    /** Drops the account from both dictionaries; a missing entry is no error. */
    method RemoveProgress(imapId: string)
      requires Valid()
      modifies this
      ensures Valid()
      ensures progress == old(progress) - {imapId}
      ensures activeJobs == old(activeJobs) - {imapId}
      ensures GetProgress(imapId) == 0 && !IsJobRunning(imapId)
      ensures GetActiveJobs() == old(GetActiveJobs()) - {imapId}
    {
      progress := progress - {imapId};
      activeJobs := activeJobs - {imapId};
    }

    /** `true` stores the entry, `false` removes it; progress is untouched. */
    method SetJobRunning(imapId: string, isRunning: bool)
      requires Valid()
      modifies this
      ensures Valid()
      ensures activeJobs == if isRunning then old(activeJobs)[imapId := true] else old(activeJobs) - {imapId}
      ensures progress == old(progress)
      ensures IsJobRunning(imapId) == isRunning
      ensures GetActiveJobs() == if isRunning then old(GetActiveJobs()) + {imapId} else old(GetActiveJobs()) - {imapId}
    {
      if isRunning {
        activeJobs := activeJobs[imapId := true];
      } else {
        activeJobs := activeJobs - {imapId};
      }
    }

    /** Because only `true` is stored, every key of _activeJobs is an active job. */
    lemma ActiveJobsAreKeys()
      requires Valid()
      ensures GetActiveJobs() == activeJobs.Keys
    {
    }
  }
}
