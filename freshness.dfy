/**
 * The freshness oracle of cbuild: a target is out of date with respect to one
 * source when the source's modification time is strictly later than the
 * target's.  The filesystem is abstracted as a map from path to modification
 * time; a path that is absent from the map is one `stat` cannot read.
 */
module Freshness {

  /** `struct timespec`: seconds and nanoseconds. */
  datatype Timespec = Timespec(sec: int, nsec: int)

  type FileSystem = map<string, Timespec>

  /** Lexicographic "strictly later" on (seconds, nanoseconds). */
  predicate Later(a: Timespec, b: Timespec) {
    a.sec > b.sec || (a.sec == b.sec && a.nsec > b.nsec)
  }

  /** cbuild_target_is_older_than_source, true standing for the C result 1. */
  function IsOlderThanSource(fs: FileSystem, target: string, source: string): (r: bool)
    ensures source !in fs ==> !r
    ensures source in fs && target !in fs ==> r
    ensures source in fs && target in fs ==>
      (r <==> Later(fs[source], fs[target]))
  {
    if source !in fs then false
    else if target !in fs then true
    else
      var s := fs[source];
      var t := fs[target];
      if s.sec == t.sec then s.nsec > t.nsec else s.sec > t.sec
  }

  /** Equal timestamps are never stale; in particular a file is never older than itself. */
  lemma EqualTimesNeverStale(fs: FileSystem, target: string, source: string)
    requires target in fs && source in fs && fs[target] == fs[source]
    ensures !IsOlderThanSource(fs, target, source)
  {
  }

  /** Staleness between two existing files is asymmetric: at most one direction holds. */
  lemma StaleIsAsymmetric(fs: FileSystem, a: string, b: string)
    requires a in fs && b in fs
    ensures !(IsOlderThanSource(fs, a, b) && IsOlderThanSource(fs, b, a))
  {
  }

  /** Staleness between existing files is transitive along a chain of three files. */
  lemma StaleIsTransitive(fs: FileSystem, a: string, b: string, c: string)
    requires a in fs && b in fs && c in fs
    requires IsOlderThanSource(fs, a, b) && IsOlderThanSource(fs, b, c)
    ensures IsOlderThanSource(fs, a, c)
  {
  }

  /**
   * The early-return decision of the self-rebuild guard: the running binary is
   * left alone when it is not older than its own source nor than the cbuild
   * header.  When the flag-parsing facility is not compiled in, a readable
   * "cargparse.h" skips the check, so the binary is rebuilt regardless.
   */
  function RebuildYourselfReturnsEarly(fs: FileSystem, cargparseEnabled: bool,
                                       binary: string, source: string, header: string): (r: bool)
    ensures r ==> !IsOlderThanSource(fs, binary, source) && !IsOlderThanSource(fs, binary, header)
    ensures !cargparseEnabled && "cargparse.h" in fs ==> !r
    ensures (cargparseEnabled || "cargparse.h" !in fs) ==>
              (r <==> !IsOlderThanSource(fs, binary, source) && !IsOlderThanSource(fs, binary, header))
  {
    (cargparseEnabled || "cargparse.h" !in fs)
      && !IsOlderThanSource(fs, binary, source)
      && !IsOlderThanSource(fs, binary, header)
  }

  /** A missing binary with a readable source always triggers the rebuild. */
  lemma MissingBinaryRebuilds(fs: FileSystem, cargparseEnabled: bool,
                              binary: string, source: string, header: string)
    requires binary !in fs && source in fs
    ensures !RebuildYourselfReturnsEarly(fs, cargparseEnabled, binary, source, header)
  {
  }
}
