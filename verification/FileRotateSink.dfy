/** The sink that writes to a file and puts it aside when it has grown too large.
    Whether the operating system renames, creates or opens a file, and what the
    clock says, is given to each call from outside. */
module FileRotateSink {
  import opened Decimal

  /** What is written to a file: a piece of text, and where it came from. */
  datatype Kind = Earlier | Header | Banner | Complaint | Entry
  datatype Chunk = Chunk(kind: Kind, text: string)

  /** What the environment does during one call: the formatted time, the file
      header, and which of rename, creation and reopening succeed. */
  datatype Env = Env(now: string, header: string, renames: bool, creates: bool, reopens: bool)

  // ---------------------------------------------------------------- contents

  function Size(chunks: seq<Chunk>): nat
  {
    if chunks == [] then 0 else Size(chunks[..|chunks| - 1]) + |chunks[|chunks| - 1].text|
  }

  /** The logged messages among the chunks. */
  function Entries(chunks: seq<Chunk>): seq<string>
  {
    if chunks == [] then []
    else
      var c := chunks[|chunks| - 1];
      Entries(chunks[..|chunks| - 1]) + if c.kind.Entry? then [c.text] else []
  }

  lemma {:induction false} Append(a: seq<Chunk>, b: seq<Chunk>)
    ensures Size(a + b) == Size(a) + Size(b)
    ensures Entries(a + b) == Entries(a) + Entries(b)
  {
    if b == [] {
      assert a + b == a;
    } else {
      var n := |b| - 1;
      Append(a, b[..n]);
      assert (a + b)[..|a + b| - 1] == a + b[..n];
    }
  }

  lemma One(c: Chunk)
    ensures Size([c]) == |c.text|
    ensures Entries([c]) == if c.kind.Entry? then [c.text] else []
  {
    assert [c][..0] == [];
  }

  function Content(disk: map<string, seq<Chunk>>, name: string): seq<Chunk>
  {
    if name in disk then disk[name] else []
  }

  /** A header and a banner hold no message. */
  lemma NoEntries(log: seq<Chunk>, header: string, archive: string)
    ensures var top := [Chunk(Header, header), BannerOf(archive)];
            Entries(log + top) == Entries(log) && Size(top) == |header| + |BannerOf(archive).text|
    ensures Size([]) == 0 && Size([Chunk(Header, header)]) == |header|
  {
    var h, b := Chunk(Header, header), BannerOf(archive);
    assert [h, b] == [h] + [b];
    One(h);
    One(b);
    Append([h], [b]);
    Append(log, [h, b]);
  }

  /** Text that is no message, on its own or behind what another file already holds. */
  lemma SideText(log: seq<Chunk>, there: seq<Chunk>, live: seq<Chunk>, c: Chunk)
    requires Entries(there) == [] && !c.kind.Entry?
    ensures Entries(log + (there + [c])) == Entries(log)
    ensures Entries(log + [c]) == Entries(log) && Size(live + [c]) == Size(live) + |c.text|
  {
    One(c);
    Append(there, [c]);
    Append(log, there + [c]);
    Append(log, [c]);
    Append(live, [c]);
  }

  lemma Side(log: string)
    ensures Entries([]) == [] && !ComplaintAbout(log).kind.Entry?
  {
  }

  lemma EntryAppended(log: seq<Chunk>, live: seq<Chunk>, message: string)
    ensures Entries(log + [Chunk(Entry, message)]) == Entries(log) + [message]
    ensures Size(live + [Chunk(Entry, message)]) == Size(live) + |message|
  {
    One(Chunk(Entry, message));
    Append(log, [Chunk(Entry, message)]);
    Append(live, [Chunk(Entry, message)]);
  }

  // ---------------------------------------------------------------- names

  predicate IsSpace(c: char) { c == ' ' || '\t' <= c <= '\r' }

  /** Characters that a prefix may not hold but loses. */
  predicate Dropped(c: char) { IsSpace(c) || c in "/\\.:" }

  /** Characters that make a prefix illegal. */
  predicate Illegal(c: char) { c in ",|<>#$%{}[]\'\"^!?+*" }

  /** White space and path characters go; a prefix that is then empty, or holds
      another illegal character, is refused: the result is empty. */
  function PrefixSanityFix(prefix: string): string
  {
    var fixed := Kept(prefix);
    if exists c :: c in fixed && Illegal(c) then "" else fixed
  }

  function Kept(s: string): string
  {
    if s == "" then ""
    else
      var c := s[|s| - 1];
      Kept(s[..|s| - 1]) + if Dropped(c) then "" else [c]
  }

  function Slashes(path: string): string
  {
    if path == "" then ""
    else Slashes(path[..|path| - 1]) + [if path[|path| - 1] == '\\' then '/' else path[|path| - 1]]
  }

  function StripEnd(path: string): string
  {
    if path != "" && (path[|path| - 1] == '/' || path[|path| - 1] == ' ')
    then StripEnd(path[..|path| - 1]) else path
  }

  function LogPath(directory: string, name: string): string
  {
    var path := StripEnd(Slashes(directory));
    (if path == "" then "" else path + "/") + name + ".log"
  }

  lemma LogPathNotEmpty(directory: string, name: string)
    ensures LogPath(directory, name) != ""
  {
  }

  function ArchiveName(path: string, now: string, number: nat): string
  {
    path + "." + now + ".arc" + Numeral(number) + ".log"
  }

  /** Two archives of one sink never share a name, whatever the clock says: the
      number can be read back from the name. */
  lemma ArchiveNamesDiffer(p: string, t: string, n: nat, q: string, u: string, m: nat)
    ensures ArchiveName(p, t, n) == ArchiveName(q, u, m) ==> n == m
    ensures ArchiveName(p, t, n) != p
  {
    var a, b := p + "." + t + ".arc", q + "." + u + ".arc";
    if ArchiveName(p, t, n) == ArchiveName(q, u, m) {
      assert ArchiveName(p, t, n) == (a + Numeral(n)) + ".log";
      assert ArchiveName(q, u, m) == (b + Numeral(m)) + ".log";
      SameFront(a + Numeral(n), b + Numeral(m), ".log");
      NumeralIsDecimalText(n);
      NumeralIsDecimalText(m);
      SameNumber(a, Numeral(n), b, Numeral(m));
      NumeralRoundTrip(n, 10, false);
      NumeralRoundTrip(m, 10, false);
    }
  }

  lemma SameFront(a: string, b: string, end: string)
    requires a + end == b + end
    ensures a == b
  {
    assert |a| == |b|;
    assert a == (a + end)[..|a|] && b == (b + end)[..|b|];
  }

  /** The digits at the end of a text start behind its last other character. */
  lemma SameNumber(a: string, x: string, b: string, y: string)
    requires a + x == b + y && a != "" && b != ""
    requires !IsDigit(a[|a| - 1]) && !IsDigit(b[|b| - 1])
    requires forall i | 0 <= i < |x| :: IsDigit(x[i])
    requires forall i | 0 <= i < |y| :: IsDigit(y[i])
    ensures x == y
  {
    var s := a + x;
    assert s[|a| - 1] == a[|a| - 1] && s[|b| - 1] == b[|b| - 1];
    assert forall i | |a| <= i < |s| :: s[i] == x[i - |a|];
    assert forall i | |b| <= i < |s| :: s[i] == y[i - |b|];
    assert x == s[|a|..] && y == s[|b|..];
  }

  /** A name that a rotation could give to an archive. */
  ghost predicate ArchiveLike(name: string)
  {
    exists p, t, n: nat :: name == ArchiveName(p, t, n)
  }

  lemma {:induction false} KeptPlain(s: string)
    ensures '.' !in Kept(s) && '/' !in Kept(s)
  {
    if s != "" { KeptPlain(s[..|s| - 1]); }
  }

  /** The log of a sanitised prefix is never named like an archive, wherever it is. */
  lemma PrefixNotArchive(directory: string, prefix: string)
    ensures !ArchiveLike(LogPath(directory, PrefixSanityFix(prefix)))
  {
    KeptPlain(prefix);
    var name := PrefixSanityFix(prefix);
    if p, t, n: nat :| LogPath(directory, name) == ArchiveName(p, t, n) {
      var path := StripEnd(Slashes(directory));
      var front := if path == "" then "" else path + "/";
      assert (front + name) + ".log" == (p + "." + t + ".arc" + Numeral(n)) + ".log";
      SameFront(front + name, p + "." + t + ".arc" + Numeral(n), ".log");
      NumeralIsDecimalText(n);
      PointBeforeName(front, name, p + "." + t, Numeral(n));
    }
  }

  lemma PointBeforeName(front: string, name: string, a: string, digits: string)
    requires front == "" || front[|front| - 1] == '/'
    requires '.' !in name && forall i | 0 <= i < |digits| :: IsDigit(digits[i])
    ensures front + name != a + ".arc" + digits
  {
    var s, t, i := front + name, a + ".arc" + digits, |a|;
    assert t[i] == '.';
    assert forall k | i + 4 <= k < |t| :: t[k] == digits[k - i - 4];
    assert forall k | i < k < |t| :: t[k] != '/';
    assert front != "" ==> s[|front| - 1] == '/';
    assert forall k | |front| <= k < |s| :: s[k] == name[k - |front|];
  }

  // ---------------------------------------------------------------- volumes

  /** A file that is no longer written to: an archive, or a log that was left for
      another one. */
  datatype Volume = Archive(log: string, now: string, number: nat) | Left(log: string)
  {
    function Name(): string
    {
      if Archive? then ArchiveName(log, now, number) else log
    }
  }

  /** The contents of the volumes, one behind the other. */
  function Collect(disk: map<string, seq<Chunk>>, volumes: seq<Volume>): seq<Chunk>
  {
    if volumes == [] then []
    else Collect(disk, volumes[..|volumes| - 1]) + Content(disk, volumes[|volumes| - 1].Name())
  }

  lemma {:induction false} CollectSame(a: map<string, seq<Chunk>>, b: map<string, seq<Chunk>>, volumes: seq<Volume>)
    requires forall v <- volumes :: Content(a, v.Name()) == Content(b, v.Name())
    ensures Collect(a, volumes) == Collect(b, volumes)
  {
    if volumes != [] {
      CollectSame(a, b, volumes[..|volumes| - 1]);
    }
  }

  lemma CollectSnoc(disk: map<string, seq<Chunk>>, volumes: seq<Volume>, v: Volume)
    ensures Collect(disk, volumes + [v]) == Collect(disk, volumes) + Content(disk, v.Name())
  {
    assert (volumes + [v])[..|volumes|] == volumes;
  }

  /** The volumes of a sink: all there, the archives numbered in the order of their
      making, the left logs different from each other and from the live one. */
  ghost predicate Shelved(disk: map<string, seq<Chunk>>, path: string, volumes: seq<Volume>, next: nat)
  {
    && (forall v <- volumes :: v.Name() in disk && (v.Archive? ==> v.number < next))
    && (forall v <- volumes :: v.Left? ==> v.log != path && !ArchiveLike(v.log))
    && (forall i, k | 0 <= i < k < |volumes| ::
          if volumes[i].Archive? && volumes[k].Archive? then volumes[i].number < volumes[k].number
          else volumes[i] != volumes[k])
    && !ArchiveLike(path)
  }

  /** No two volumes share a name, none is the live file, and none has the name of
      the next archive. */
  lemma VolumesDistinct(disk: map<string, seq<Chunk>>, path: string, volumes: seq<Volume>, next: nat)
    requires Shelved(disk, path, volumes, next)
    ensures forall i, k | 0 <= i < k < |volumes| :: volumes[i].Name() != volumes[k].Name()
    ensures forall v <- volumes :: v.Name() != path
    ensures forall v <- volumes, p, t :: v.Name() != ArchiveName(p, t, next)
  {
    hide ArchiveName;
    forall i, k | 0 <= i < k < |volumes| ensures volumes[i].Name() != volumes[k].Name() {
      VolumesDiffer(volumes[i], volumes[k]) by {
        assert volumes[i] in volumes && volumes[k] in volumes;
      }
    }
    forall v <- volumes, p, t ensures v.Name() != ArchiveName(p, t, next) {
      if v.Archive? { ArchiveNamesDiffer(v.log, v.now, v.number, p, t, next); }
    }
  }

  lemma VolumesDiffer(v: Volume, w: Volume)
    requires v != w && (v.Archive? && w.Archive? ==> v.number < w.number)
    requires (v.Left? ==> !ArchiveLike(v.log)) && (w.Left? ==> !ArchiveLike(w.log))
    ensures v.Name() != w.Name()
  {
    hide ArchiveName;
    if v.Archive? && w.Archive? {
      ArchiveNamesDiffer(v.log, v.now, v.number, w.log, w.now, w.number);
    }
  }

  /** A number taken for a rename that failed is not used again. */
  lemma NumberSkipped(disk: map<string, seq<Chunk>>, path: string, volumes: seq<Volume>, next: nat)
    requires Shelved(disk, path, volumes, next)
    ensures Shelved(disk, path, volumes, next + 1)
  {
  }

  /** No file but the live one changes, so no volume does. */
  lemma LiveChanges(before: map<string, seq<Chunk>>, after: map<string, seq<Chunk>>, path: string,
                    volumes: seq<Volume>, next: nat)
    requires Shelved(before, path, volumes, next)
    requires after - {path} == before - {path}
    ensures Shelved(after, path, volumes, next)
    ensures Collect(after, volumes) == Collect(before, volumes)
  {
    hide ArchiveName, ArchiveLike;
    VolumesDistinct(before, path, volumes, next);
    forall v <- volumes
      ensures v.Name() in after && Content(after, v.Name()) == Content(before, v.Name()) {
      assert v.Name() in before - {path};
      assert v.Name() in after - {path};
    }
    CollectSame(before, after, volumes);
  }

  /** The live file becomes the next archive. */
  lemma LivePutAside(before: map<string, seq<Chunk>>, after: map<string, seq<Chunk>>, path: string,
                     volumes: seq<Volume>, next: nat, now: string)
    requires Shelved(before, path, volumes, next) && path in before
    requires after == (before - {path})[ArchiveName(path, now, next) := before[path]]
    ensures var v := Archive(path, now, next);
            && Shelved(after, path, volumes + [v], next + 1)
            && Collect(after, volumes + [v]) == Collect(before, volumes) + before[path]
  {
    hide ArchiveName, ArchiveLike;
    var v := Archive(path, now, next);
    VolumesDistinct(before, path, volumes, next);
    forall w <- volumes
      ensures w.Name() in after && Content(after, w.Name()) == Content(before, w.Name()) {
      assert w.Name() != path && w.Name() != v.Name();
    }
    CollectSame(before, after, volumes);
    CollectSnoc(after, volumes, v);
    forall i | 0 <= i < |volumes| ensures volumes[i] in volumes && volumes[i] != v {}
  }

  /** The live file is left for another one. */
  lemma LiveLeft(disk: map<string, seq<Chunk>>, path: string, volumes: seq<Volume>, next: nat, target: string)
    requires Shelved(disk, path, volumes, next) && path in disk
    requires target != path && Left(target) !in volumes && !ArchiveLike(target)
    ensures Shelved(disk, target, volumes + [Left(path)], next)
    ensures Collect(disk, volumes + [Left(path)]) == Collect(disk, volumes) + disk[path]
  {
    hide ArchiveName, ArchiveLike, Collect;
    CollectSnoc(disk, volumes, Left(path));
    assert Left(path) !in volumes;
    forall i | 0 <= i < |volumes| ensures volumes[i] in volumes && volumes[i] != Left(path) {}
  }

  lemma ContentElsewhere(a: map<string, seq<Chunk>>, b: map<string, seq<Chunk>>, path: string, name: string)
    requires a - {path} == b - {path} && name != path
    ensures Content(a, name) == Content(b, name)
  {
    assert name in a <==> name in a - {path};
    assert name in b <==> name in b - {path};
    if name in a { assert (a - {path})[name] == a[name] && (b - {path})[name] == b[name]; }
  }

  /** A log that was left before, or is named like an archive, is not fit to be live. */
  lemma NotShelved(disk: map<string, seq<Chunk>>, path: string, volumes: seq<Volume>, next: nat)
    requires Left(path) in volumes || ArchiveLike(path)
    ensures !Shelved(disk, path, volumes, next)
  {
    hide ArchiveLike;
  }

  /** Messages there before are more than the recorded ones. */
  lemma ForeignEntries(log: seq<Chunk>, there: seq<Chunk>, c: Chunk)
    requires Entries(there) != [] && !c.kind.Entry?
    ensures Entries(log + (there + [c])) != Entries(log)
  {
    One(c);
    Append(there, [c]);
    Append(log, there + [c]);
  }

  /** A log that was never written to in the meantime is taken up. */
  lemma NoneLeft(disk: map<string, seq<Chunk>>, path: string, volumes: seq<Volume>, next: nat, target: string)
    requires Shelved(disk, path, volumes, next)
    requires Left(target) !in volumes && !ArchiveLike(target)
    ensures Shelved(disk, target, volumes, next)
  {
    hide ArchiveName, ArchiveLike;
  }

  /** A log taken up for the first time. */
  lemma FirstLog(earlier: map<string, seq<Chunk>>, log: string, header: string)
    requires !ArchiveLike(log) && Entries(Content(earlier, log)) == []
    ensures var live := Content(earlier, log) + [Chunk(Header, header)];
            var disk := earlier[log := live];
            && Shelved(disk, log, [], 0) && Collect(disk, []) == []
            && Content(disk, log) + [] == live && [] + live == live && Entries(live) == []
            && disk - {log} == earlier - {log}
  {
    hide ArchiveLike;
    One(Chunk(Header, header));
    Append(Content(earlier, log), [Chunk(Header, header)]);
  }

  // ---------------------------------------------------------------- the sink

  class RotatingSink {
    var path: string
    var directory: string
    var prefix: string
    var maxLogSize: int
    var archiveUniqueNum: nat
    var curLogSize: nat
    var flushPolicy: nat
    var flushCounter: nat
    /** The stream: whether it has a file, and what it has not yet passed on. */
    var isOpen: bool
    var buffer: seq<Chunk>
    /** The files of the operating system. */
    var disk: map<string, seq<Chunk>>
    ghost var volumes: seq<Volume>
    /** The messages saved, and those that met a stream with a file. */
    ghost var saved: seq<string>
    ghost var recorded: seq<string>

    /** A sink whose log could be opened behind what it already holds. */
    constructor (newDirectory: string, newPrefix: string, policy: nat, header: string,
                 earlier: map<string, seq<Chunk>>)
      requires !ArchiveLike(LogPath(newDirectory, newPrefix))
      requires Entries(Content(earlier, LogPath(newDirectory, newPrefix))) == []
      ensures Valid() && isOpen && saved == [] && volumes == []
      ensures Live() == Content(earlier, path) + [Chunk(Header, header)]
      ensures path == LogPath(newDirectory, newPrefix) && prefix == newPrefix && flushPolicy == policy
      ensures maxLogSize == 524288000 && archiveUniqueNum == 0 && curLogSize == Size(Live())
      ensures disk - {path} == earlier - {path}
    {
      hide ArchiveLike, LogPath, Entries, Size, Collect, Content, Shelved;
      var log := LogPath(newDirectory, newPrefix);
      path, directory, prefix := log, newDirectory, newPrefix;
      maxLogSize, archiveUniqueNum := 524288000, 0;
      flushPolicy, flushCounter := policy, policy;
      isOpen, buffer := true, [];
      disk := earlier[log := Content(earlier, log) + [Chunk(Header, header)]];
      curLogSize := Size(Content(earlier, log) + [Chunk(Header, header)]);
      volumes, saved, recorded := [], [], [];
      new;
      FirstLog(earlier, log, header);
    }

    /** Creates a sink, or stops the program: on a prefix that has nothing legal left,
        and when the log cannot be opened. */
    static method Create(logPrefix: string, logDirectory: string, policy: nat, env: Env,
                         earlier: map<string, seq<Chunk>>)
      returns (sink: RotatingSink?)
      requires forall n <- earlier :: Entries(earlier[n]) == []
      ensures sink == null <==> PrefixSanityFix(logPrefix) == "" || !env.creates
      ensures sink != null ==>
                && fresh(sink) && sink.Valid() && sink.isOpen && sink.flushPolicy == policy
                && sink.path == LogPath(logDirectory, PrefixSanityFix(logPrefix))
                && sink.Live() == Content(earlier, sink.path) + [Chunk(Header, env.header)]
                && sink.disk - {sink.path} == earlier - {sink.path}
                && sink.saved == [] && sink.volumes == []
                && sink.maxLogSize == 524288000 && sink.archiveUniqueNum == 0
                && sink.curLogSize == Size(sink.Live())
    {
      hide ArchiveLike, LogPath, PrefixSanityFix;
      var name := PrefixSanityFix(logPrefix);
      if name == "" || !env.creates { return null; }
      PrefixNotArchive(logDirectory, logPrefix);
      One(Chunk(Header, ""));
      sink := new RotatingSink(logDirectory, name, policy, env.header, earlier);
    }

    /** The live file as a reader would see it after a flush. */
    ghost function Live(): seq<Chunk>
      reads this
    {
      Content(disk, path) + buffer
    }

    /** What the volumes hold. */
    ghost function Shelf(): seq<Chunk>
      reads this
    {
      Collect(disk, volumes)
    }

    /** The whole log: the volumes in the order of their making, then the live file. */
    ghost function Log(): seq<Chunk>
      reads this
    {
      Shelf() + Live()
    }

    ghost predicate Archived()
      reads this
    {
      Shelved(disk, path, volumes, archiveUniqueNum)
    }

    /** With a flush policy, each write since the last flush has been counted. */
    ghost predicate Counting()
      reads this
    {
      flushPolicy > 0 ==> 1 <= flushCounter <= flushPolicy && |buffer| <= flushPolicy - flushCounter
    }

    /** The stream is in order. */
    ghost predicate Streaming()
      reads this
    {
      (isOpen ==> path in disk) && (!isOpen ==> buffer == []) && Counting()
    }

    /** The log holds the recorded messages, each once and in order; these are all
        that were saved, if there are as many; the size counter never falls behind;
        with a flush policy the buffer is shorter than it. */
    ghost predicate Valid()
      reads this
    {
      && Archived() && Streaming()
      && path == LogPath(directory, prefix)
      && Entries(Log()) == recorded
      && |recorded| <= |saved| && (|recorded| == |saved| ==> recorded == saved)
      && (isOpen ==> Size(Live()) <= curLogSize)
    }

    /** Passes the buffer on to the file. */
    method Flush()
      requires (isOpen ==> path in disk) && (!isOpen ==> buffer == [])
      modifies this`disk, this`buffer
      ensures Live() == old(Live()) && disk - {path} == old(disk) - {path}
      ensures buffer == [] && disk.Keys == old(disk).Keys && (!isOpen ==> disk == old(disk))
      ensures old(Archived()) ==> Archived() && Shelf() == old(Shelf())
      ensures old(Valid()) ==> Valid() && Log() == old(Log())
    {
      hide Collect, Entries, Size, LogPath, ArchiveName, Shelved;
      if isOpen {
        disk := disk[path := disk[path] + buffer];
        buffer := [];
        Undisturbed();
      }
    }

    /** Only the live file has changed. */
    twostate lemma Undisturbed()
      requires disk - {path} == old(disk) - {path}
      requires path == old(path) && volumes == old(volumes) && archiveUniqueNum == old(archiveUniqueNum)
      ensures old(Archived()) ==> Archived() && Shelf() == old(Shelf())
    {
      if old(Archived()) {
        LiveChanges(old(disk), disk, path, volumes, archiveUniqueNum);
      }
    }

    method ApplyFlushPolicy()
      requires (isOpen ==> path in disk) && (!isOpen ==> buffer == [])
      requires flushPolicy > 0 ==> 1 <= flushCounter <= flushPolicy
      modifies this`disk, this`buffer, this`flushCounter
      ensures Live() == old(Live()) && disk - {path} == old(disk) - {path}
      ensures disk.Keys == old(disk).Keys && (!isOpen ==> disk == old(disk))
      ensures old(Archived()) ==> Archived() && Shelf() == old(Shelf())
      ensures flushPolicy == 0 ==> buffer == old(buffer) && flushCounter == old(flushCounter)
      ensures flushPolicy > 0 ==>
                if old(flushCounter) > 1
                then buffer == old(buffer) && flushCounter == old(flushCounter) - 1
                else buffer == [] && flushCounter == flushPolicy
    {
      hide Collect, Shelved;
      if flushPolicy == 0 { return; }
      flushCounter := flushCounter - 1;
      if flushCounter == 0 {
        Flush();
        flushCounter := flushPolicy;
      }
    }

    /** Opens the live file for appending; it is created if it is not there. */
    method OpenLogFile(success: bool)
      requires !isOpen && buffer == []
      modifies this`isOpen, this`disk
      ensures Live() == old(Live()) && disk - {path} == old(disk) - {path}
      ensures old(Archived()) ==> Archived() && Shelf() == old(Shelf())
      ensures isOpen == success && (success ==> path in disk) && (!success ==> disk == old(disk))
    {
      hide Collect, Shelved;
      isOpen := success;
      if isOpen && path !in disk { disk := disk[path := []]; }
      Undisturbed();
    }

    /** Text goes to the buffer of a stream that has a file, and is lost otherwise. */
    method Insert(c: Chunk)
      modifies this`buffer
      ensures Live() == if isOpen then old(Live()) + [c] else old(Live())
      ensures buffer == if isOpen then old(buffer) + [c] else old(buffer)
    {
      if isOpen {
        buffer := buffer + [c];
        assert Live() == old(Live()) + [c];
      }
    }

    /** Writes to the stream; without a file the text is lost, though it counts. */
    method WriteWithoutRotate(c: Chunk)
      requires Streaming()
      modifies this`disk, this`buffer, this`flushCounter, this`curLogSize
      ensures Streaming() && disk - {path} == old(disk) - {path} && disk.Keys == old(disk).Keys
      ensures Live() == if isOpen then old(Live()) + [c] else old(Live())
      ensures curLogSize == old(curLogSize) + |c.text|
      ensures old(Archived()) ==> Archived() && Shelf() == old(Shelf())
      ensures isOpen ==>
                if flushPolicy > 0 && old(flushCounter) == 1 then buffer == [] && flushCounter == flushPolicy
                else buffer == old(buffer) + [c] && flushCounter == old(flushCounter) - if flushPolicy > 0 then 1 else 0
    {
      hide Collect, Shelved;
      Insert(c);
      ApplyFlushPolicy();
      curLogSize := curLogSize + |c.text|;
    }

    /** The size of the live file; finding it out passes the buffer on. */
    method SetLogSizeCounter()
      requires isOpen && path in disk
      modifies this`disk, this`buffer, this`curLogSize, this`flushCounter
      ensures Live() == old(Live()) && Streaming() && disk - {path} == old(disk) - {path}
      ensures curLogSize == Size(Live())
      ensures old(Archived()) ==> Archived() && Shelf() == old(Shelf())
    {
      hide Collect, Size, Shelved;
      Flush();
      curLogSize := Size(disk[path]);
      flushCounter := flushPolicy;
      assert disk[path] + [] == disk[path];
    }

    /** The log of that name, as changeLogFile makes it up. */
    function Target(newDirectory: string, newName: string): string
      reads this
    {
      LogPath(newDirectory, if newName == "" then prefix else newName)
    }

    /** A log that takes up after the live one: the same, or one that this sink has not
        written to before and that is not named like an archive. */
    ghost predicate Follows(target: string)
      reads this
    {
      target == path || (Left(target) !in volumes && !ArchiveLike(target))
    }

    ghost predicate Continues(target: string)
      reads this
    {
      Follows(target) && (target == path || Entries(Content(disk, target)) == [])
    }

    /** Gives up the live file for the target; the old stream is closed with it. */
    method Leave(target: string)
      requires Streaming()
      modifies this`disk, this`buffer, this`isOpen, this`path, this`volumes
      ensures path == target && !isOpen && buffer == []
      ensures disk - {old(path)} == old(disk) - {old(path)} && disk.Keys == old(disk).Keys
      ensures target == old(path) ==> volumes == old(volumes) && Live() == old(Live())
      ensures target != old(path) ==>
                && Live() == Content(old(disk), target) && Content(disk, old(path)) == old(Live())
                && old(volumes) <= volumes
      ensures old(Archived() && Follows(target)) ==> Archived()
      ensures old(Archived() && Follows(target)) ==>
                Shelf() == old(Shelf()) + if target == old(path) then [] else old(Live())
    {
      hide Collect, Shelved, ArchiveLike, LogPath;
      Flush();
      isOpen := false;
      assert target != path ==> target in disk - {path} || target !in disk;
      if target != path && path in disk {
        if Archived() && Follows(target) { LiveLeft(disk, path, volumes, archiveUniqueNum, target); }
        volumes := volumes + [Left(path)];
      } else if target != path && Archived() && Follows(target) {
        NoneLeft(disk, path, volumes, archiveUniqueNum, target);
      }
      path := target;
    }

    /** Goes on in the target, with a header behind what it already holds. */
    method TakeUp(target: string, header: string)
      requires Streaming()
      modifies this`disk, this`buffer, this`isOpen, this`path, this`volumes, this`curLogSize,
               this`flushCounter
      ensures Streaming() && path == target && isOpen && curLogSize == Size(Live())
      ensures path == old(path) ==>
                volumes == old(volumes) && Live() == old(Live()) + [Chunk(Header, header)]
      ensures path != old(path) ==>
                && Live() == Content(old(disk), path) + [Chunk(Header, header)]
                && Content(disk, old(path)) == old(Live()) && old(volumes) <= volumes
      ensures old(Archived() && Follows(target)) ==>
                && Archived()
                && Shelf() == old(Shelf()) + if path == old(path) then [] else old(Live())
    {
      hide Collect, Size, ArchiveLike, Shelved;
      Leave(target);
      ghost var left := disk;
      OpenLogFile(true);
      Insert(Chunk(Header, header));
      SetLogSizeCounter();
      if path != old(path) { ContentElsewhere(left, disk, path, old(path)); }
    }

    /** Changes to the log of that name in the directory and writes behind what it
        already holds, or complains in the live file and changes nothing. */
    method ChangeLogFile(newDirectory: string, newName: string, env: Env) returns (name: string)
      requires Streaming()
      modifies this
      ensures saved == old(saved) && recorded == old(recorded) && maxLogSize == old(maxLogSize)
      ensures flushPolicy == old(flushPolicy) && archiveUniqueNum == old(archiveUniqueNum)
      ensures Streaming() && (name == "" <==> !env.creates)
      ensures !env.creates ==>
                && path == old(path) && directory == old(directory) && prefix == old(prefix)
                && isOpen == old(isOpen) && volumes == old(volumes) && disk.Keys == old(disk).Keys
                && Live() == old(Live())
                   + (if isOpen then [ComplaintAbout(old(Target(newDirectory, newName)))] else [])
                && curLogSize == old(curLogSize) + |ComplaintAbout(old(Target(newDirectory, newName))).text|
                && (old(Archived()) ==> Archived() && Shelf() == old(Shelf()))
      ensures env.creates ==>
                && name == path == LogPath(directory, prefix) == old(Target(newDirectory, newName))
                && directory == newDirectory && prefix == (if newName == "" then old(prefix) else newName)
                && isOpen && curLogSize == Size(Live())
      ensures env.creates && path == old(path) ==>
                volumes == old(volumes) && Live() == old(Live()) + [Chunk(Header, env.header)]
      ensures env.creates && path != old(path) ==>
                && Live() == Content(old(disk), path) + [Chunk(Header, env.header)]
                && Content(disk, old(path)) == old(Live()) && old(volumes) <= volumes
      ensures env.creates && old(Archived() && Follows(Target(newDirectory, newName))) ==>
                && Archived()
                && Shelf() == old(Shelf()) + if path == old(path) then [] else old(Live())
    {
      hide Collect, Size, LogPath, ArchiveLike, ComplaintAbout, Shelved;
      var fileName := if newName == "" then prefix else newName;
      var target := Target(newDirectory, newName);
      if !env.creates {
        WriteWithoutRotate(ComplaintAbout(target));
        assert !isOpen ==> Live() + [] == Live();
        return "";
      }
      prefix, directory := fileName, newDirectory;
      TakeUp(target, env.header);
      LogPathNotEmpty(directory, prefix);
      return path;
    }

    /** A client's change of the log. A change that is refused disturbs nothing. After
        one that is not, the log goes on in the new file if and only if that is the
        same one, or one that holds no message, was not left before, and is not named
        like an archive. */
    method Switch(newDirectory: string, newName: string, env: Env) returns (name: string)
      requires Valid()
      modifies this
      ensures saved == old(saved) && recorded == old(recorded)
      ensures Valid() <==> !env.creates || old(Continues(Target(newDirectory, newName)))
      ensures name == "" <==> !env.creates
      ensures env.creates ==> isOpen && path == old(Target(newDirectory, newName))
    {
      hide Collect, Size, Entries, LogPath, ArchiveLike, ComplaintAbout, Shelved;
      ghost var log, target, h := Log(), Target(newDirectory, newName), Chunk(Header, env.header);
      ghost var there, live := if target == path then [] else Content(disk, target), Live();
      NoEntries([], "", "");
      Side(target);
      if Entries(there) == [] { SideText(log, there, live, h); } else { ForeignEntries(log, there, h); }
      SideText(log, [], live, ComplaintAbout(target));
      name := ChangeLogFile(newDirectory, newName, env);
      if env.creates {
        assert old(Follows(Target(newDirectory, newName))) ==> Log() == log + (there + [h]);
        if !old(Follows(Target(newDirectory, newName))) {
          NotShelved(disk, path, volumes, archiveUniqueNum);
        }
      } else {
        assert Log() == if isOpen then log + [ComplaintAbout(target)] else log;
      }
    }

    /** A message for the live file; the others stay. */
    method WriteOther(message: string)
      requires Streaming() && isOpen
      modifies this`disk, this`buffer, this`flushCounter, this`curLogSize
      ensures Streaming() && Live() == old(Live()) + [Chunk(Entry, message)]
      ensures forall name :: name != path ==> Content(disk, name) == Content(old(disk), name)
    {
      hide Shelved, Collect, Content;
      WriteWithoutRotate(Chunk(Entry, message));
      forall name | name != path ensures Content(disk, name) == Content(old(disk), name) {
        ContentElsewhere(disk, old(disk), path, name);
      }
    }

    /** Why a change back does not continue the log: x is saved in another log, then y
        in the first one again, where it stands right behind the messages from before.
        Neither order of the two files is the order of saving. */
    method LeaveAndReturn(newDirectory: string, newName: string, x: string, y: string, env: Env)
      requires Valid() && isOpen && env.creates && newName != "" && prefix != ""
      requires Target(newDirectory, newName) != path && Continues(Target(newDirectory, newName))
      modifies this
      ensures var before, here, there := old(Entries(Live())), Entries(Live()),
                                         Entries(Content(disk, old(Target(newDirectory, newName))));
              && path == old(path) && here == before + [y] && there == [x]
              && (x != y ==> here + there != before + [x, y])
              && (before != [] && x != before[0] ==> there + here != before + [x, y])
    {
      hide Collect, Entries, Size, LogPath, ArchiveLike, ComplaintAbout, Shelved;
      ghost var live, target, h := Live(), Target(newDirectory, newName), Chunk(Header, env.header);
      ghost var other := Content(disk, target);
      var firstDirectory, firstName := directory, prefix;
      Side("");
      SideText([], [], live, h);
      SideText([], other, live, h);
      SideText(live, [], live, h);
      assert other + [h] == [] + (other + [h]);
      var _ := ChangeLogFile(newDirectory, newName, env);
      WriteOther(x);
      EntryAppended(other + [h], [], x);
      var _ := ChangeLogFile(firstDirectory, firstName, env);
      WriteOther(y);
      EntryAppended(live + [h], [], y);
      ghost var before := Entries(live);
      assert (before + [y] + [x])[|before|] == y && (before + [x, y])[|before|] == x;
      assert before != [] ==> ([x] + (before + [y]))[0] == x && (before + [x, y])[0] == before[0];
    }

    /** Closes the live file and renames it, if that succeeds, to the next archive. */
    method CloseAndRename(env: Env) returns (name: string)
      requires Archived() && Streaming() && isOpen
      modifies this`disk, this`buffer, this`isOpen, this`archiveUniqueNum, this`volumes
      ensures Archived() && Streaming() && !isOpen
      ensures name == ArchiveName(path, env.now, old(archiveUniqueNum))
      ensures archiveUniqueNum == old(archiveUniqueNum) + 1
      ensures env.renames ==> volumes == old(volumes) + [Archive(path, env.now, old(archiveUniqueNum))]
                              && path !in disk && Live() == [] && Shelf() == old(Shelf()) + old(Live())
      ensures !env.renames ==> volumes == old(volumes) && path in disk && Live() == old(Live())
                               && Shelf() == old(Shelf())
    {
      hide Collect, ArchiveName, ArchiveLike, Shelved;
      Flush();
      var number := archiveUniqueNum;
      name := ArchiveName(path, env.now, number);
      archiveUniqueNum := number + 1;
      isOpen := false;
      if !env.renames {
        NumberSkipped(disk, path, volumes, number);
        return;
      }
      ArchiveNamesDiffer(path, env.now, number, path, env.now, number);
      ghost var before := disk;
      var content := disk[path];
      disk := disk - {path};
      disk := disk[name := content];
      LivePutAside(before, disk, path, volumes, number, env.now);
      volumes := volumes + [Archive(path, env.now, number)];
      assert content + [] == content;
    }

    /** Opens the file that follows an archive, or else the old name again. */
    method StartNext(archive: string, env: Env) returns (ok: bool)
      requires Archived() && Streaming() && !isOpen && Live() == [] && path !in disk
      requires path == LogPath(directory, prefix)
      modifies this
      ensures Archived() && Shelf() == old(Shelf()) && Streaming()
      ensures saved == old(saved) && recorded == old(recorded) && volumes == old(volumes)
      ensures path == old(path) && path == LogPath(directory, prefix)
      ensures directory == old(directory) && prefix == old(prefix)
      ensures archiveUniqueNum == old(archiveUniqueNum)
      ensures maxLogSize == old(maxLogSize) && flushPolicy == old(flushPolicy)
      ensures ok == env.creates && isOpen == (ok || env.reopens)
      ensures isOpen ==> Size(Live()) <= curLogSize
      ensures Live() == if ok then [Chunk(Header, env.header), BannerOf(archive)] else []
      ensures ok ==> curLogSize == Size(Live())
    {
      hide Collect, Entries, Size, LogPath, ArchiveLike, BannerOf, ComplaintAbout, Shelved;
      NoEntries([], env.header, archive);
      var logfile := ChangeLogFile(directory, "", env);
      if logfile == "" {
        OpenLogFile(env.reopens);
        return false;
      }
      assert Shelf() == old(Shelf()) + [] == old(Shelf());
      WriteWithoutRotate(BannerOf(archive));
      assert [] + [Chunk(Header, env.header)] == [Chunk(Header, env.header)];
      assert Live() == [Chunk(Header, env.header), BannerOf(archive)];
      return true;
    }

    /** Starts a new live file. The log only grows: by the header and the banner of
        the new file, or by nothing when the environment refuses. */
    method RotateLog(env: Env) returns (ok: bool)
      requires Valid()
      modifies this
      ensures Valid() && saved == old(saved) && recorded == old(recorded)
      ensures path == old(path) && maxLogSize == old(maxLogSize) && flushPolicy == old(flushPolicy)
      ensures ok == (old(isOpen) && env.renames && env.creates)
      ensures isOpen == (old(isOpen) && (ok || env.reopens))
      ensures volumes == old(volumes)
                         + if old(isOpen) && env.renames
                           then [Archive(path, env.now, old(archiveUniqueNum))] else []
      ensures ok ==> Live() == [Chunk(Header, env.header),
                                BannerOf(ArchiveName(path, env.now, old(archiveUniqueNum)))]
                     && curLogSize == Size(Live())
      ensures ok ==> Log() == old(Log()) + Live()
      ensures !ok ==> Log() == old(Log())
      ensures old(isOpen) && env.renames ==> Shelf() == old(Shelf()) + old(Live())
      ensures !(old(isOpen) && env.renames) ==> Shelf() == old(Shelf()) && Live() == old(Live())
      ensures archiveUniqueNum == old(archiveUniqueNum) + if old(isOpen) then 1 else 0
      ensures !(old(isOpen) && env.renames) ==> curLogSize == old(curLogSize)
      ensures !old(isOpen) ==> disk == old(disk) && flushCounter == old(flushCounter)
      ensures directory == old(directory) && prefix == old(prefix)
    {
      hide Collect, Entries, Size, LogPath, ArchiveName, ArchiveLike, BannerOf, Shelved;
      if !isOpen { return false; }
      var name := CloseAndRename(env);
      if !env.renames {
        OpenLogFile(env.reopens);
        return false;
      }
      ghost var log := Shelf();
      assert log == old(Log());
      NoEntries(log, env.header, name);
      ok := StartNext(name, env);
      assert Log() == log + Live();
      assert log + [] == log;
    }

    /** Writes a message behind the live file. */
    method Record(message: string)
      requires Valid()
      modifies this
      ensures Valid() && path == old(path) && maxLogSize == old(maxLogSize) && isOpen == old(isOpen)
      ensures saved == old(saved) + [message]
      ensures recorded == old(recorded) + if isOpen then [message] else []
      ensures Live() == if isOpen then old(Live()) + [Chunk(Entry, message)] else old(Live())
      ensures Size(Live()) == Size(old(Live())) + if isOpen then |message| else 0
      ensures curLogSize == old(curLogSize) + |message|
      ensures volumes == old(volumes) && archiveUniqueNum == old(archiveUniqueNum) && Shelf() == old(Shelf())
      ensures flushPolicy == old(flushPolicy) && directory == old(directory) && prefix == old(prefix)
      ensures isOpen ==>
                if flushPolicy > 0 && old(flushCounter) == 1 then buffer == [] && flushCounter == flushPolicy
                else buffer == old(buffer) + [Chunk(Entry, message)]
                     && flushCounter == old(flushCounter) - if flushPolicy > 0 then 1 else 0
    {
      hide Collect, Entries, Size, LogPath, ArchiveLike, Shelved;
      ghost var log := Log();
      EntryAppended(log, Live(), message);
      WriteWithoutRotate(Chunk(Entry, message));
      assert Log() == if isOpen then log + [Chunk(Entry, message)] else log;
      saved := saved + [message];
      if isOpen { recorded := recorded + [message]; }
    }

    /** Writes a message. Only when the live file has grown above the limit, and there
        is one, it is put aside first, if it can be renamed; nothing else is.
        The message is recorded exactly if the stream still has a file, which it keeps
        as long as no reopening is refused when it is needed. */
    method Save(message: string, env: Env)
      requires Valid()
      modifies this
      ensures Valid()
      ensures saved == old(saved) + [message]
      ensures recorded == old(recorded) + if isOpen then [message] else []
      ensures isOpen == (old(isOpen)
                         && (old(curLogSize) <= maxLogSize || (env.renames && env.creates) || env.reopens))
      ensures isOpen && (old(curLogSize) <= maxLogSize || (env.renames && env.creates)) ==>
                Size(Live()) <= Max(maxLogSize, |env.header| + |BannerOf(ArchiveName(path, env.now,
                                    old(archiveUniqueNum))).text|) + |message|
      ensures path == old(path) && maxLogSize == old(maxLogSize)
      ensures old(curLogSize) <= maxLogSize || !old(isOpen) ==>
                && volumes == old(volumes) && archiveUniqueNum == old(archiveUniqueNum)
                && Shelf() == old(Shelf()) && curLogSize == old(curLogSize) + |message|
                && Live() == old(Live()) + (if isOpen then [Chunk(Entry, message)] else [])
                && (isOpen ==>
                      if flushPolicy > 0 && old(flushCounter) == 1
                      then buffer == [] && flushCounter == flushPolicy
                      else buffer == old(buffer) + [Chunk(Entry, message)]
                           && flushCounter == old(flushCounter) - if flushPolicy > 0 then 1 else 0)
      ensures flushPolicy == old(flushPolicy) && directory == old(directory) && prefix == old(prefix)
      ensures old(curLogSize) > maxLogSize && old(isOpen) ==>
                && (!env.renames ==> curLogSize == old(curLogSize) + |message|)
                && (env.renames && env.creates ==> curLogSize == Size(Live()))
                && archiveUniqueNum == old(archiveUniqueNum) + 1
                && volumes == old(volumes)
                              + (if env.renames then [Archive(path, env.now, old(archiveUniqueNum))] else [])
                && Shelf() == old(Shelf()) + (if env.renames then old(Live()) else [])
                && Live() == (if !env.renames then old(Live())
                              else if env.creates
                              then [Chunk(Header, env.header),
                                    BannerOf(ArchiveName(path, env.now, old(archiveUniqueNum)))]
                              else [])
                             + (if isOpen then [Chunk(Entry, message)] else [])
    {
      hide Collect, Entries, Size, LogPath, ArchiveName, ArchiveLike, BannerOf, Shelved;
      if curLogSize > maxLogSize {
        var ok := RotateLog(env);
        NoEntries([], env.header, ArchiveName(path, env.now, old(archiveUniqueNum)));
      }
      Record(message);
    }

    method SetMaxLogSize(size: int)
      requires Valid()
      modifies this`maxLogSize
      ensures Valid() && maxLogSize == size && Log() == old(Log())
    {
      maxLogSize := size;
    }

    method SetFlushPolicy(policy: nat)
      requires Valid()
      modifies this
      ensures Valid() && flushPolicy == flushCounter == policy && buffer == []
      ensures Log() == old(Log()) && saved == old(saved) && isOpen == old(isOpen)
    {
      hide Collect, Entries, Size, LogPath, ArchiveLike, Shelved;
      Flush();
      flushPolicy := policy;
      flushCounter := policy;
    }
  }

  function ComplaintAbout(log: string): Chunk
  {
    Chunk(Complaint,
          "Unable to change log file. Illegal filename or busy? Unsuccessful log name was:" + log)
  }

  function BannerOf(archive: string): Chunk
  {
    Chunk(Banner, "Previous rotated Archived log file name: " + archive + "\n")
  }

  function Max(a: int, b: int): int { if a < b then b else a }

  // ---------------------------------------------------------------- what names mean

  lemma {:induction false} SlashesAppend(a: string, b: string)
    ensures Slashes(a + b) == Slashes(a) + Slashes(b)
  {
    if b == "" {
      assert a + b == a;
    } else {
      assert (a + b)[..|a + b| - 1] == a + b[..|b| - 1];
      SlashesAppend(a, b[..|b| - 1]);
    }
  }

  lemma {:induction false} NoBackslash(s: string)
    requires '\\' !in s
    ensures Slashes(s) == s
  {
    if s != "" { NoBackslash(s[..|s| - 1]); }
  }

  /** A log lies in its directory, or where the program is if that is empty. */
  lemma LogInDirectory(directory: string, name: string)
    ensures LogPath("", name) == name + ".log"
    ensures directory != "" && '\\' !in directory && directory[|directory| - 1] !in "/ " ==>
              LogPath(directory, name) == directory + "/" + name + ".log"
  {
    assert "" + name == name;
    if '\\' !in directory { NoBackslash(directory); }
  }

  /** Slashes and blanks at the end make no difference. */
  lemma DirectoryEnd(directory: string, e: string, name: string)
    requires e == "/" || e == " "
    ensures LogPath(directory + e, name) == LogPath(directory, name)
  {
    SlashesAppend(directory, e);
    assert Slashes(e) == e by { assert e[..0] == ""; }
    assert (Slashes(directory) + e)[..|Slashes(directory)|] == Slashes(directory);
  }

  /** Nor does the kind of slash. */
  lemma DirectorySlashes(directory: string, rest: string, name: string)
    ensures LogPath(directory + "\\" + rest, name) == LogPath(directory + "/" + rest, name)
  {
    hide StripEnd;
    assert Slashes("\\") == "/" && Slashes("/") == "/" by { assert "\\"[..0] == "" && "/"[..0] == ""; }
    hide Slashes;
    SlashesAppend(directory, "\\");
    SlashesAppend(directory, "/");
    SlashesAppend(directory + "\\", rest);
    SlashesAppend(directory + "/", rest);
  }

  /** An archive lies beside its log: its name goes on from the log's, with the time and
      the number, and ends like a log. */
  lemma ArchiveBesideLog(path: string, now: string, number: nat)
    ensures var name := ArchiveName(path, now, number);
            path + "." + now + ".arc" <= name && name[|name| - 4..] == ".log"
  {
    var front := path + "." + now + ".arc";
    assert ArchiveName(path, now, number) == front + (Numeral(number) + ".log");
  }

  /** The banner of a new file names the archive before it, and a complaint the log that
      could not be opened. */
  lemma TextsName(name: string)
    ensures var b := BannerOf(name);
            && b.kind == Banner && |b.text| > |name|
            && b.text[|b.text| - |name| - 1..] == name + "\n"
    ensures var c := ComplaintAbout(name);
            && c.kind == Complaint && |c.text| >= |name|
            && c.text[|c.text| - |name|..] == name
  {
    var front := "Previous rotated Archived log file name: ";
    assert BannerOf(name).text == front + (name + "\n");
  }

  lemma {:induction false} KeptAppend(a: string, b: string)
    ensures Kept(a + b) == Kept(a) + Kept(b)
  {
    if b == "" {
      assert a + b == a;
    } else {
      assert (a + b)[..|a + b| - 1] == a + b[..|b| - 1];
      KeptAppend(a, b[..|b| - 1]);
    }
  }

  lemma {:induction false} KeptMembers(s: string, c: char)
    ensures c in Kept(s) <==> c in s && !Dropped(c)
  {
    hide Dropped;
    if s != "" {
      KeptMembers(s[..|s| - 1], c);
      assert s == s[..|s| - 1] + [s[|s| - 1]];
    }
  }

  lemma {:induction false} KeptWhole(s: string)
    requires forall i | 0 <= i < |s| :: !Dropped(s[i])
    ensures Kept(s) == s
  {
    hide Dropped;
    if s != "" { KeptWhole(s[..|s| - 1]); }
  }

  /** A legal prefix is taken as it is. */
  lemma SanityKeeps(prefix: string)
    requires forall i | 0 <= i < |prefix| :: !Dropped(prefix[i]) && !Illegal(prefix[i])
    ensures PrefixSanityFix(prefix) == prefix
  {
    hide Dropped, Illegal;
    KeptWhole(prefix);
  }

  /** Dropped characters make no difference. */
  lemma SanityDrops(prefix: string, c: char, rest: string)
    requires Dropped(c)
    ensures PrefixSanityFix(prefix + [c] + rest) == PrefixSanityFix(prefix + rest)
  {
    hide Dropped, Illegal;
    KeptAppend(prefix, rest);
    KeptAppend(prefix, [c]);
    KeptAppend(prefix + [c], rest);
    assert Kept([c]) == "" by { assert [c][..0] == ""; }
  }

  /** A prefix is refused exactly if it holds an illegal character, or none but dropped
      ones. */
  lemma SanityRefuses(prefix: string)
    ensures PrefixSanityFix(prefix) == ""
            <==> (exists x :: x in prefix && Illegal(x)) || (forall x :: x in prefix ==> Dropped(x))
  {
    hide Dropped, Illegal;
    forall x ensures x in Kept(prefix) <==> x in prefix && !Dropped(x) { KeptMembers(prefix, x); }
    forall x ensures Illegal(x) ==> !Dropped(x) { IllegalStays(x); }
    if Kept(prefix) != "" { assert Kept(prefix)[0] in Kept(prefix); }
  }

  lemma IllegalStays(c: char)
    ensures Illegal(c) ==> !Dropped(c)
  {
  }
}
