/** The on-disk redo log (log.c): its header block, installation, and what recovery makes of a disk. */
module RedoLog {
  import opened Blocks

  const MAXOPBLOCKS: nat := 10
  const LOGSIZE: nat := 30       // MAXOPBLOCKS * 3

  // Where the log lives: the header block at start, then size - 1 log blocks. And how many buffers the cache has.
  datatype Layout = Layout(start: nat, size: nat, buffers: nat)

  predicate InLog(l: Layout, b: nat) {
    l.start <= b < l.start + l.size
  }

  predicate HomeBlock(l: Layout, d: Disk, b: nat) {
    b < |d| && !InLog(l, b)
  }

  // ----- the header block: n, then n block numbers

  function HeaderN(b: Block): nat {
    Word(b, 0)
  }

  function Header(b: Block): seq<nat>
    requires HeaderN(b) <= LOGSIZE
  {
    seq(HeaderN(b), i requires 0 <= i < HeaderN(b) => Word(b, 1 + i))
  }

  // The header fields written into a block, up to entry k; the other words stay.
  function WithEntries(b: Block, lh: seq<nat>, k: nat): Block
    requires k <= |lh| <= LOGSIZE && forall i :: 0 <= i < |lh| ==> lh[i] < WORD_LIMIT
  {
    if k == 0 then WithWord(b, 0, |lh|) else WithWord(WithEntries(b, lh, k - 1), k, lh[k - 1])
  }

  function WithHeader(b: Block, lh: seq<nat>): Block
    requires |lh| <= LOGSIZE && forall i :: 0 <= i < |lh| ==> lh[i] < WORD_LIMIT
  {
    WithEntries(b, lh, |lh|)
  }

  lemma {:induction false} WithEntriesWord(b: Block, lh: seq<nat>, k: nat, j: nat)
    requires k <= |lh| <= LOGSIZE && j < WORDS && forall i :: 0 <= i < |lh| ==> lh[i] < WORD_LIMIT
    ensures Word(WithEntries(b, lh, k), j) ==
            if j == 0 then |lh| else if j <= k then lh[j - 1] else Word(b, j)
  {
    if k == 0 {
      WordOfWithWord(b, 0, |lh|, j);
    } else {
      WithEntriesWord(b, lh, k - 1, j);
      WordOfWithWord(WithEntries(b, lh, k - 1), k, lh[k - 1], j);
    }
  }

  // Reading back a written header gives what was written.
  lemma HeaderRoundTrip(b: Block, lh: seq<nat>)
    requires |lh| <= LOGSIZE && forall i :: 0 <= i < |lh| ==> lh[i] < WORD_LIMIT
    ensures HeaderN(WithHeader(b, lh)) == |lh| && Header(WithHeader(b, lh)) == lh
  {
    WithEntriesWord(b, lh, |lh|, 0);
    forall i | 0 <= i < |lh|
      ensures Word(WithHeader(b, lh), 1 + i) == lh[i]
    {
      WithEntriesWord(b, lh, |lh|, 1 + i);
    }
  }

  // ----- well-formed logs and what they stand for

  // The block numbers a header may name: distinct home blocks.
  ghost predicate NamesOk(l: Layout, d: Disk, lh: seq<nat>) {
    && |lh| <= LOGSIZE
    && (forall i :: 0 <= i < |lh| ==> HomeBlock(l, d, lh[i]))
    && (forall i, j :: 0 <= i < j < |lh| ==> lh[i] != lh[j])
  }

  // And as many as the log has blocks for.
  ghost predicate LegalNames(l: Layout, d: Disk, lh: seq<nat>) {
    NamesOk(l, d, lh) && |lh| < l.size
  }

  ghost predicate FitsDisk(l: Layout, d: Disk) {
    && 1 <= l.size && l.start + l.size <= |d| <= WORD_LIMIT
  }

  ghost predicate Readable(l: Layout, d: Disk) {
    && FitsDisk(l, d)
    && HeaderN(d[l.start]) <= LOGSIZE
    && NamesOk(l, d, Header(d[l.start]))
  }

  ghost predicate WellFormed(l: Layout, d: Disk) {
    Readable(l, d) && |Header(d[l.start])| < l.size
  }

  ghost function LogOf(l: Layout, d: Disk): seq<nat>
    requires Readable(l, d)
  {
    Header(d[l.start])
  }

  // The log's copy of the i-th named block.
  function LogBlock(l: Layout, d: Disk, i: nat): Block
    requires l.start + 1 + i < |d|
  {
    d[l.start + 1 + i]
  }

  // The disk with the first k logged blocks copied to their home locations.
  ghost function Installed(l: Layout, d: Disk, lh: seq<nat>, k: nat): (d': Disk)
    requires FitsDisk(l, d) && LegalNames(l, d, lh) && k <= |lh|
    ensures |d'| == |d|
  {
    if k == 0 then d else
      Installed(l, d, lh, k - 1)[lh[k - 1] := LogBlock(l, d, k - 1)]
  }

  // The disk recovery leaves behind: committed blocks installed, then the log emptied.
  ghost function Recovered(l: Layout, d: Disk): (d': Disk)
    requires WellFormed(l, d)
    ensures |d'| == |d|
  {
    var lh := LogOf(l, d);
    Emptied(l, Installed(l, d, lh, |lh|))
  }

  ghost function Emptied(l: Layout, d: Disk): (d': Disk)
    requires FitsDisk(l, d)
    ensures |d'| == |d|
  {
    d[l.start := WithHeader(d[l.start], [])]
  }

  // The file system proper: every block outside the log.
  ghost function Home(l: Layout, d: Disk): (h: Disk)
    ensures |h| == |d|
  {
    seq(|d|, b requires 0 <= b < |d| => if InLog(l, b) then ZeroBlock() else d[b])
  }

  // Home with the logged blocks replaced by the contents the log holds for them.
  lemma {:induction false} InstalledAt(l: Layout, d: Disk, lh: seq<nat>, k: nat, b: nat)
    requires FitsDisk(l, d) && LegalNames(l, d, lh) && k <= |lh| && b < |d|
    ensures (forall i :: 0 <= i < k ==> lh[i] != b) ==> Installed(l, d, lh, k)[b] == d[b]
    ensures forall i :: 0 <= i < k && lh[i] == b ==> Installed(l, d, lh, k)[b] == LogBlock(l, d, i)
  {
    if k > 0 {
      InstalledAt(l, d, lh, k - 1, b);
    }
  }

  // ----- each way a disk can be cut short

  lemma ZeroWord(b: Block)
    requires Word(b, 0) == 0
    ensures WithHeader(b, []) == b
  {
    assert b[0] == 0 && b[1] == 0 && b[2] == 0 && b[3] == 0;
    assert WithWord(b, 0, 0) == b;
  }

  // An empty log: recovery changes no block.
  lemma EmptyLogRecovers(l: Layout, d: Disk)
    requires FitsDisk(l, d) && HeaderN(d[l.start]) == 0
    ensures WellFormed(l, d) && Emptied(l, d) == Recovered(l, d) == d
  {
    ZeroWord(d[l.start]);
    assert Installed(l, d, LogOf(l, d), 0) == d;
  }

  // Writing log blocks under an empty header changes nothing recovery can see.
  lemma LogBlockWriteInvisible(l: Layout, d: Disk, b: nat, data: Block)
    requires FitsDisk(l, d) && HeaderN(d[l.start]) == 0 && InLog(l, b) && b != l.start
    ensures FitsDisk(l, d[b := data]) && WellFormed(l, d) && WellFormed(l, d[b := data])
    ensures Home(l, Recovered(l, d[b := data])) == Home(l, Recovered(l, d))
  {
    EmptyLogRecovers(l, d);
    EmptyLogRecovers(l, d[b := data]);
    assert Home(l, d[b := data]) == Home(l, d);
  }

  // The header write is the commit point: from then on recovery yields the logged contents.
  lemma HeaderWriteCommits(l: Layout, d: Disk, lh: seq<nat>, view: Disk)
    requires FitsDisk(l, d) && LegalNames(l, d, lh) && |view| == |d|
    requires forall i :: 0 <= i < |lh| ==> LogBlock(l, d, i) == view[lh[i]]
    requires forall b: nat :: HomeBlock(l, d, b) && b !in lh ==> d[b] == view[b]
    ensures var d' := d[l.start := WithHeader(d[l.start], lh)];
            WellFormed(l, d') && LogOf(l, d') == lh && Home(l, Recovered(l, d')) == Home(l, view)
  {
    var d' := d[l.start := WithHeader(d[l.start], lh)];
    HeaderRoundTrip(d[l.start], lh);
    assert LegalNames(l, d', lh);
    RecoveredIsView(l, d', view);
  }

  // A committed log whose blocks hold `view` recovers to `view`.
  lemma RecoveredIsView(l: Layout, d: Disk, view: Disk)
    requires WellFormed(l, d) && |view| == |d|
    requires forall i :: 0 <= i < |LogOf(l, d)| ==> LogBlock(l, d, i) == view[LogOf(l, d)[i]]
    requires forall b: nat :: HomeBlock(l, d, b) && b !in LogOf(l, d) ==> d[b] == view[b]
    ensures Home(l, Recovered(l, d)) == Home(l, view)
  {
    var lh := LogOf(l, d);
    forall b: nat | HomeBlock(l, d, b)
      ensures Recovered(l, d)[b] == view[b]
    {
      InstalledAt(l, d, lh, |lh|, b);
      if b in lh {
        var i :| 0 <= i < |lh| && lh[i] == b;
        assert Installed(l, d, lh, |lh|)[b] == LogBlock(l, d, i);
      }
    }
  }

  // Installing one more block of a committed log does not change what recovery yields.
  lemma InstallStepInvisible(l: Layout, d: Disk, k: nat)
    requires WellFormed(l, d) && k < |LogOf(l, d)|
    ensures var d' := d[LogOf(l, d)[k] := LogBlock(l, d, k)];
            && WellFormed(l, d') && LogOf(l, d') == LogOf(l, d)
            && Home(l, Recovered(l, d')) == Home(l, Recovered(l, d))
  {
    var lh := LogOf(l, d);
    var d' := d[lh[k] := LogBlock(l, d, k)];
    assert LegalNames(l, d', lh);
    var view := Recovered(l, d);
    forall b | 0 <= b < |d|
      ensures HomeBlock(l, d, b) && b !in lh ==> view[b] == d[b]
      ensures forall i :: 0 <= i < |lh| && lh[i] == b ==> view[b] == LogBlock(l, d, i)
    {
      InstalledAt(l, d, lh, |lh|, b);
    }
    RecoveredIsView(l, d', view);
  }

  // Clearing the header once everything is installed does not change it either.
  lemma ClearInvisible(l: Layout, d: Disk)
    requires WellFormed(l, d)
    requires forall i :: 0 <= i < |LogOf(l, d)| ==> d[LogOf(l, d)[i]] == LogBlock(l, d, i)
    ensures HeaderN(Emptied(l, d)[l.start]) == 0 && WellFormed(l, Emptied(l, d))
    ensures Home(l, Recovered(l, Emptied(l, d))) == Home(l, Recovered(l, d)) == Home(l, d)
  {
    HeaderRoundTrip(d[l.start], []);
    var d' := Emptied(l, d);
    EmptyLogRecovers(l, d');
    RecoveredIsView(l, d, d);
    assert Home(l, d') == Home(l, d);
  }

  // Recovery is idempotent: running it on its own outcome changes nothing.
  lemma RecoveredTwice(l: Layout, d: Disk)
    requires WellFormed(l, d)
    ensures HeaderN(Recovered(l, d)[l.start]) == 0 && WellFormed(l, Recovered(l, d))
    ensures Recovered(l, Recovered(l, d)) == Recovered(l, d)
  {
    var lh := LogOf(l, d);
    HeaderRoundTrip(Installed(l, d, lh, |lh|)[l.start], []);
    EmptyLogRecovers(l, Recovered(l, d));
  }
}
