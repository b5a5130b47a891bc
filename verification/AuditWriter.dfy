/** The audit writer in place. */
module AuditWriters {
  import opened AuditLog

  class AuditWriter {
    const config: Config
    /** The log directory. */
    var files: Files
    var isOpen: bool
    var entriesWritten: nat
    var currentFileSize: nat

    ghost function Snapshot(): Writer
      reads this
    {
      Writer(config, files, isOpen, entriesWritten, currentFileSize)
    }

    /** `files` is the log directory as it is found. */
    constructor (config: Config, files: Files)
      ensures Snapshot() == New(config, files)
    {
      this.config, this.files := config, files;
      isOpen, entriesWritten, currentFileSize := false, 0, 0;
    }

    method OpenFile()
      modifies this
      ensures Snapshot() == Opened(old(Snapshot()))
    {
      if 0 !in files {
        files := files[0 := []];
      }
      currentFileSize := Bytes(files[0]);
      isOpen := true;
      entriesWritten := 0;
    }

    method WriteEntry(entry: Entry)
      modifies this
      ensures Snapshot() == Written(old(Snapshot()), entry)
    {
      if !isOpen {
        OpenFile();
      }
      files := files[0 := Contents(files, 0) + [entry]];
      entriesWritten := entriesWritten + 1;
      currentFileSize := currentFileSize + |entry|;
      var due := IsRotationDue();
      if due {
        RotateLog();
      }
    }

    method IsRotationDue() returns (due: bool)
      ensures due == ShouldRotate(Snapshot())
    {
      if config.maxSizeMb.Some? {
        var maxBytes := config.maxSizeMb.value * 1024 * 1024;
        if currentFileSize >= maxBytes {
          return true;
        }
      }
      if config.maxEntries.Some? {
        if entriesWritten >= config.maxEntries.value {
          return true;
        }
      }
      due := false;
    }

    method RotateLog()
      modifies this
      ensures Snapshot() == Rotated(old(Snapshot()))
    {
      isOpen := false;
      var maxFiles := config.MaxFiles();
      var i := maxFiles as int - 1;
      while i >= 1
        invariant i <= maxFiles - 1 && (maxFiles > 0 ==> i >= 0)
        invariant maxFiles == 0 ==> files == old(files)
        invariant maxFiles > 0 ==> ShiftDown(files, maxFiles, i) == ShiftDown(old(files), maxFiles, maxFiles - 1)
        invariant entriesWritten == old(entriesWritten) && currentFileSize == old(currentFileSize) && !isOpen
      {
        if i in files {
          if i + 1 >= maxFiles {
            files := files - {i};
          } else {
            files := files[i + 1 := files[i]] - {i};
          }
        }
        i := i - 1;
      }
      if 0 in files {
        files := files[1 := files[0]] - {0};
      }
      assert files == RotatedFiles(old(files), maxFiles);
      OpenFile();
    }
  }
}
