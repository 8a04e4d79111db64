/**
 * The local disk as the backup engine sees it: archived files by path,
 * created directories, and the temporary files `Path.GetTempFileName` hands
 * out, which live apart from the archive and never share a name with each other.
 */
module FileSystemModel {
  import opened DotNetText

  class FileSystem {
    var files: map<string, seq<byte>>
    /** The paths passed to `Directory.CreateDirectory`; the parents it also creates are not recorded. */
    var dirs: set<string>
    var temps: map<nat, seq<byte>>
    var nextTemp: nat

    /** Every temporary file was handed out before `nextTemp`, so the next one is fresh. */
    ghost predicate Valid()
      reads this
    {
      forall t :: t in temps ==> t < nextTemp
    }

    constructor (files0: map<string, seq<byte>>, dirs0: set<string>)
      ensures Valid()
      ensures files == files0 && dirs == dirs0 && temps == map[]
    {
      files, dirs := files0, dirs0;
      temps, nextTemp := map[], 0;
    }

    /** `File.Exists` */
    function Exists(path: string): (b: bool)
      reads this
      ensures b <==> path in files
    {
      path in files
    }

    /** `Directory.CreateDirectory`: idempotent; records `path` (and not its parents) in `dirs`. */
    method CreateDirectory(path: string)
      modifies this`dirs
      ensures dirs == old(dirs) + {path}
    {
      dirs := dirs + {path};
    }

    /** `Path.GetTempFileName`: creates a fresh, empty temporary file. */
    method GetTempFileName() returns (t: nat)
      requires Valid()
      modifies this
      ensures Valid()
      ensures t == old(nextTemp) && t !in old(temps) && temps == old(temps)[t := []]
      ensures files == old(files) && dirs == old(dirs)
    {
      t := nextTemp;
      temps := temps[t := []];
      nextTemp := nextTemp + 1;
    }

    /** Writes `bytes` over the start of an empty temporary file, as `File.OpenWrite` and a stream copy do. */
    method WriteTemp(t: nat, bytes: seq<byte>)
      requires Valid() && t in temps && temps[t] == []
      modifies this`temps
      ensures Valid()
      ensures temps == old(temps)[t := bytes]
    {
      temps := temps[t := bytes];
    }

    /** `File.Delete` on a temporary file. */
    method DeleteTemp(t: nat)
      requires Valid()
      modifies this`temps
      ensures Valid()
      ensures temps == old(temps) - {t}
    {
      temps := temps - {t};
    }

    /** `File.Delete`: removing a missing file is not an error. */
    method Delete(path: string)
      modifies this`files
      ensures files == old(files) - {path}
    {
      files := files - {path};
    }

    /**
     * `File.Copy(source, target)` without overwrite: the source must exist and
     * the target must not, otherwise it throws; callers prove neither happens.
     */
    method CopyTemp(t: nat, path: string)
      requires t in temps && path !in files
      modifies this`files
      ensures files == old(files)[path := temps[t]]
    {
      files := files[path := temps[t]];
    }

    /** `File.WriteAllTextAsync` with the text already encoded: creates or truncates the file. */
    method WriteAllBytes(path: string, bytes: seq<byte>)
      modifies this`files
      ensures files == old(files)[path := bytes]
    {
      files := files[path := bytes];
    }
  }
}
