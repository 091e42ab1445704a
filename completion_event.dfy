/**
 * SetFilesToCompleteEvent: an append-only list of results that stamps each
 * added result COMPLETE. The ArrayList is an object of its own
 * (FileResultList), so that a list handed to the constructor stays shared
 * with the caller.
 */
module CompletionEvents {
  import opened FileResults

  /** A `java.util.ArrayList<FileResult>`: a growable sequence of references. */
  class FileResultList {
    var items: seq<FileResultObject>

    constructor ()
      ensures items == []
    {
      items := [];
    }

    /** `ArrayList.add`: append at the end. */
    method Add(fr: FileResultObject)
      modifies this
      ensures items == old(items) + [fr]
    {
      items := items + [fr];
    }
  }

  class SetFilesToCompleteEvent {
    const completedFiles: FileResultList

    /** Keeps the caller's list itself, not a copy. */
    constructor (completedFiles: FileResultList)
      ensures this.completedFiles == completedFiles
      ensures completedFiles.items == old(completedFiles.items)
    {
      this.completedFiles := completedFiles;
    }

    /** The no-argument constructor: a fresh, empty list. */
    constructor Empty()
      ensures fresh(completedFiles)
      ensures completedFiles.items == []
    {
      completedFiles := new FileResultList();
    }

    /** `toArray`: a fresh array holding the current entries in insertion order. */
    method GetCompletedFiles() returns (files: array<FileResultObject>)
      ensures fresh(files)
      ensures files[..] == completedFiles.items
    {
      var items := completedFiles.items;
      files := new FileResultObject[|items|](i requires 0 <= i < |items| => items[i]);
    }

    /** Stamps the caller's result COMPLETE, then appends that same object. */
    method AddFileResult(fr: FileResultObject)
      modifies fr, completedFiles
      ensures fr.value == old(fr.value).(fileStatus := COMPLETE)
      ensures completedFiles.items == old(completedFiles.items) + [fr]
    {
      fr.SetFileStatus(COMPLETE);
      completedFiles.Add(fr);
    }
  }

  /** An array returned by getCompletedFiles is a snapshot: a later add does not change it. */
  method SnapshotSurvivesLaterAdd(event: SetFilesToCompleteEvent, fr: FileResultObject)
    returns (snapshot: array<FileResultObject>)
    modifies fr, event.completedFiles
    ensures fresh(snapshot)
    ensures snapshot[..] == old(event.completedFiles.items)
    ensures event.completedFiles.items == old(event.completedFiles.items) + [fr]
  {
    snapshot := event.GetCompletedFiles();
    event.AddFileResult(fr);
  }

  /** The list given to the constructor sees every later add through the event. */
  method SharedListSeesAdds(list: FileResultList, fr: FileResultObject)
    returns (event: SetFilesToCompleteEvent)
    modifies fr, list
    ensures event.completedFiles == list
    ensures list.items == old(list.items) + [fr]
    ensures fr.value.fileStatus == COMPLETE
  {
    event := new SetFilesToCompleteEvent(list);
    event.AddFileResult(fr);
  }
}
