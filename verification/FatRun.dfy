/** Whole runs: format a volume, copy any number of files into it, and look at
    the result through the reader that trusts only the bytes. */
module FatRun {
  import opened Wrappers
  import opened Bytes
  import opened FatLayout
  import opened FatImage
  import opened FatReader
  import opened FatSpec
  import opened FatFormat
  import opened FatCopy

  ghost predicate AllHonest(ops: seq<Op>) {
    forall i :: 0 <= i < |ops| ==> ops[i].fd.Honest()
  }

  /** What the calls of a run return, up to and including one that aborts. */
  function Outcomes(g: Geometry, files: seq<File>, ops: seq<Op>): seq<Outcome>
    requires g.clusterBytes > 0 && Legal(ops)
    decreases |ops|
  {
    if ops == [] then []
    else
      var (out, files') := Copied(g, files, ops[0].fd, ops[0].name, ops[0].attr);
      if out.Aborted? then [out] else [out] + Outcomes(g, files', ops[1..])
  }

  /** A run of copies means the run of `Copied` on the file list. */
  method CopyAll(disk: array<byte>, base: nat, ops: seq<Op>, ghost g: Geometry, ghost files: seq<File>)
    returns (outs: seq<Outcome>)
    requires Sound(g) && base == g.base && RepInv(disk[..], g, files) && Legal(ops) && AllHonest(ops)
    modifies disk
    ensures outs == Outcomes(g, files, ops)
    ensures !Dies(g, files, ops) ==> RepInv(disk[..], g, After(g, files, ops))
    ensures OnlyIn(old(disk[..]), disk[..], g.base, g.base + g.size)
  {
    hide FatImage.RepInv, FatSpec.Copied;
    outs := [];
    ghost var cur := files;
    for i := 0 to |ops|
      invariant RepInv(disk[..], g, cur)
      invariant After(g, cur, ops[i..]) == After(g, files, ops)
      invariant Dies(g, cur, ops[i..]) == Dies(g, files, ops)
      invariant outs + Outcomes(g, cur, ops[i..]) == Outcomes(g, files, ops)
      invariant OnlyIn(old(disk[..]), disk[..], g.base, g.base + g.size)
    {
      assert ops[i..][1..] == ops[i + 1..];
      var out := CopyIn(disk, base, ops[i].fd, ops[i].name, ops[i].attr, g, cur);
      outs := outs + [out];
      if out.Aborted? {
        return;
      }
      cur := Copied(g, cur, ops[i].fd, ops[i].name, ops[i].attr).1;
    }
  }

  /** A reader of the bytes finds the layout `g` and the files `files`. */
  ghost predicate Shows(d: seq<byte>, g: Geometry, files: seq<File>) {
    RepInv(d, g, files) && Mount(d, g.base) == Some(g) && ListFrom(d, g, 0) == Some(files)
  }

  /** What a run on an empty volume returns and, unless an assertion ends it, leaves for a reader. */
  ghost predicate RunShown(d: seq<byte>, g: Geometry, ops: seq<Op>, outs: seq<Outcome>)
    requires g.clusterBytes > 0 && Legal(ops)
  {
    outs == Outcomes(g, [], ops) && (!Dies(g, [], ops) ==> Shows(d, g, After(g, [], ops)))
  }

  /** Format succeeds exactly on the accepted configurations, and the run then shows. */
  ghost predicate Built(d: seq<byte>, base: nat, cfg: Config, ops: seq<Op>, r: FormatResult, outs: seq<Outcome>) {
    && (r.Formatted? <==> Formats(cfg))
    && (Formats(cfg) && Legal(ops) ==> RunShown(d, Layout(cfg, base), ops, outs))
  }

  /**
   * Format, then copy. Whatever the old bytes, if no assertion fires the
   * boot sector describes the chosen layout and the reader lists exactly the
   * files of the abstract run, each byte for byte; nothing outside the
   * partition has changed.
   */
  method Build(disk: array<byte>, base: nat, cfg: Config, ops: seq<Op>) returns (r: FormatResult, outs: seq<Outcome>)
    requires Addressable(cfg) && base + cfg.nSector * cfg.bytesPerSector <= disk.Length && Legal(ops) && AllHonest(ops)
    modifies disk
    ensures Built(disk[..], base, cfg, ops, r, outs)
    ensures OnlyIn(old(disk[..]), disk[..], base, base + cfg.nSector * cfg.bytesPerSector)
  {
    r := CreateFat32(disk, base, cfg);
    outs := [];
    if r.Formatted? {
      ghost var g := Layout(cfg, base);
      outs := CopyAll(disk, base, ops, g, []);
      if !Dies(g, [], ops) {
        Lists(disk[..], g, After(g, [], ops));
      }
    }
  }

  /** Writes below the volume leave what a reader finds in it. */
  lemma BuiltFrame(d: seq<byte>, e: seq<byte>, base: nat, cfg: Config, ops: seq<Op>, r: FormatResult,
                   outs: seq<Outcome>,
                   lo: nat, hi: nat)
    requires Built(d, base, cfg, ops, r, outs) && Legal(ops) && OnlyIn(d, e, lo, hi) && hi <= base
    ensures Built(e, base, cfg, ops, r, outs)
  {
    hide RunShown;
    if Formats(cfg) {
      LayoutIsSound(cfg, base);
      RunFrame(d, e, Layout(cfg, base), ops, outs, lo, hi);
    }
  }

  lemma RunFrame(d: seq<byte>, e: seq<byte>, g: Geometry, ops: seq<Op>, outs: seq<Outcome>, lo: nat, hi: nat)
    requires Sound(g) && Legal(ops) && RunShown(d, g, ops, outs) && OnlyIn(d, e, lo, hi) && hi <= g.base
    ensures RunShown(e, g, ops, outs)
  {
    hide RepInv, Mount, ListFrom, After, Dies, Outcomes, OnlyIn, Sectored;
    if !Dies(g, [], ops) {
      BelowFrame(d, e, g, After(g, [], ops), lo, hi);
      Lists(e, g, After(g, [], ops));
    }
  }
}
