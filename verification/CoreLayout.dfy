/** xc_core.c: the sections of a core file, laid out in their headers before anything is written. */
module CoreLayout {
  /** sizeof(Elf64_Ehdr), sizeof(Elf64_Shdr) and PAGE_SIZE. */
  const EHDR: nat := 64
  const SHDR: nat := 64
  const PAGE: nat := 4096

  /** Arch(k) is the k-th section of the architecture's own context. */
  datatype Section = Null | Shstrtab | Note | Prstatus | Arch(k: nat) | SharedInfo | Pages | Table

  datatype Header = Header(section: Section, offset: nat, size: nat)

  /** A piece of output; Outside is what belongs to no section: the headers and the padding. */
  datatype Piece = Outside(len: nat) | Inside(section: Section, len: nat)

  /** sizeof(struct elfnote), which each note starts with. */
  const ELFNOTE: nat := 16

  /** Sizes of the descriptors of the four notes. */
  datatype Notes = Notes(none: nat, core: nat, xenVersion: nat, formatVersion: nat)

  /** What is dumped: the notes, the sizes of all vcpu contexts, of each architecture section, of the
      pages, of the p2m or pfn table and of the string table, and whether there is a shared info page. */
  datatype Dump = Dump(notes: Notes, contexts: nat, arch: seq<nat>, shared: bool, pages: nat, table: nat, strings: nat)

  /** The size declared for the notes: the sum of four structures. */
  function NotesSize(d: Dump): nat {
    (ELFNOTE + d.notes.none) + (ELFNOTE + d.notes.core) + (ELFNOTE + d.notes.xenVersion)
        + (ELFNOTE + d.notes.formatVersion)
  }

  datatype Machine = X86 | Arm

  /** Neither architecture in the tree has a context of its own. */
  function ArchSections(machine: Machine): seq<nat> {
    match machine
    case X86 => []
    case Arm => []
  }

  function Sum(s: seq<nat>): nat {
    if s == [] then 0 else Sum(s[..|s| - 1]) + s[|s| - 1]
  }

  function Total(out: seq<Piece>): nat {
    if out == [] then 0 else Total(out[..|out| - 1]) + out[|out| - 1].len
  }

  lemma TotalPush(out: seq<Piece>, p: Piece)
    ensures Total(out + [p]) == Total(out) + p.len
  {
    assert (out + [p])[..|out|] == out;
  }

  function RoundUp(x: nat): (r: nat)
    ensures r % PAGE == 0 && x <= r < x + PAGE
  {
    (x + PAGE - 1) / PAGE * PAGE
  }

  // ----- Where things are and where they are said to be ----------------------------------------------------------

  /** Sections in front of the pages, in the order of their headers. */
  function Fixed(d: Dump): nat {
    4 + |d.arch| + (if d.shared then 1 else 0)
  }

  /** Bytes before the notes: the file header and all section headers. */
  function Front(d: Dump): nat {
    EHDR + SHDR * (Fixed(d) + 2)
  }

  function SharedSize(d: Dump): nat {
    if d.shared then PAGE else 0
  }

  /** Where the headers put the sections. */
  function Said(d: Dump, s: Section): nat
    requires s.Arch? ==> s.k < |d.arch|
  {
    var contexts := Front(d) + NotesSize(d);
    var arch := contexts + d.contexts;
    var pages := RoundUp(arch + Sum(d.arch) + SharedSize(d));
    match s
    case Null => 0
    case Note => Front(d)
    case Prstatus => contexts
    case Arch(k) => arch + Sum(d.arch[..k])
    case SharedInfo => arch + Sum(d.arch)
    case Pages => pages
    case Table => pages + d.pages
    case Shstrtab => pages + d.pages + d.table
  }

  /** Where they are written: the shared info page before the architecture's context. */
  function Written(d: Dump, s: Section): nat
    requires s.Arch? ==> s.k < |d.arch|
  {
    var after := Front(d) + NotesSize(d) + d.contexts;
    match s
    case Arch(k) => after + SharedSize(d) + Sum(d.arch[..k])
    case SharedInfo => after
    case _ => Said(d, s)
  }

  predicate Has(d: Dump, s: Section) {
    match s
    case Arch(k) => k < |d.arch|
    case SharedInfo => d.shared
    case Null => false
    case _ => true
  }

  function SizeOf(d: Dump, s: Section): nat
    requires s.Arch? ==> s.k < |d.arch|
  {
    match s
    case Null => 0
    case Note => NotesSize(d)
    case Prstatus => d.contexts
    case Arch(k) => d.arch[k]
    case SharedInfo => PAGE
    case Pages => d.pages
    case Table => d.table
    case Shstrtab => d.strings
  }

  /** Every header gives the place its section is written at, exactly when there is no shared info page
      or the architecture adds no section of its own. */
  lemma OffsetsRight(d: Dump)
    ensures (forall s :: Has(d, s) ==> Said(d, s) == Written(d, s)) <==> !d.shared || d.arch == []
  {
    hide RoundUp, Sum;
    if d.shared && d.arch != [] {
      assert Has(d, Arch(0)) && Said(d, Arch(0)) != Written(d, Arch(0));
    } else if d.arch == [] {
      SumNone(d.arch);
    }
  }

  lemma SumNone(s: seq<nat>)
    ensures s == [] ==> Sum(s) == 0
  {}

  lemma SumNext(s: seq<nat>, k: nat)
    requires k < |s|
    ensures Sum(s[..k + 1]) == Sum(s[..k]) + s[k]
  {
    assert s[..k + 1][..k] == s[..k];
  }

  // ----- Building the headers --------------------------------------------------------------------------------------

  /** The section of header i. */
  function SectionAt(d: Dump, i: nat): Section
    requires i < Fixed(d) + 2
  {
    var n := |d.arch|;
    if i == 0 then Null
    else if i == 1 then Shstrtab
    else if i == 2 then Note
    else if i == 3 then Prstatus
    else if i < 4 + n then Arch(i - 4)
    else if i == Fixed(d) then Pages
    else if i == Fixed(d) + 1 then Table
    else SharedInfo
  }

  /** Before the number of headers is known, offsets are short of the room for them. */
  ghost predicate Drafted(d: Dump, hs: seq<Header>, short: nat) {
    && |hs| <= Fixed(d)
    && forall i :: 0 <= i < |hs| ==>
      && hs[i].section == SectionAt(d, i)
      && (i == 0 ==> hs[i].offset == 0 && hs[i].size == 0)
      && (i >= 2 ==> hs[i].offset + short == Said(d, hs[i].section) && hs[i].size == SizeOf(d, hs[i].section))
  }

  method ArchHeaders(d: Dump, headers: seq<Header>, start: nat) returns (hs: seq<Header>, offset: nat)
    requires |headers| == 4 && Drafted(d, headers, SHDR * (Fixed(d) + 2))
    requires start == EHDR + NotesSize(d) + d.contexts
    ensures |hs| == 4 + |d.arch| && Drafted(d, hs, SHDR * (Fixed(d) + 2)) && offset == start + Sum(d.arch)
  {
    hide RoundUp, Sum;
    hs, offset := headers, start;
    SumNone(d.arch[..0]);
    for k := 0 to |d.arch|
      invariant |hs| == 4 + k && Drafted(d, hs, SHDR * (Fixed(d) + 2)) && offset == start + Sum(d.arch[..k])
    {
      hs := hs + [Header(Arch(k), offset, d.arch[k])];
      SumNext(d.arch, k);
      offset := offset + d.arch[k];
    }
    assert d.arch[..|d.arch|] == d.arch;
  }

  /** The headers in front of the pages, with offsets counted from the end of the headers. */
  method Draft(d: Dump) returns (hs: seq<Header>, offset: nat)
    ensures |hs| == Fixed(d) && Drafted(d, hs, SHDR * (Fixed(d) + 2))
    ensures offset == EHDR + NotesSize(d) + d.contexts + Sum(d.arch) + SharedSize(d)
  {
    hide RoundUp, Sum;
    hs := [Header(Null, 0, 0), Header(Shstrtab, 0, 0)];
    offset := EHDR;
    hs := hs + [Header(Note, offset, NotesSize(d))];
    offset := offset + NotesSize(d);
    hs := hs + [Header(Prstatus, offset, d.contexts)];
    offset := offset + d.contexts;
    hs, offset := ArchHeaders(d, hs, offset);
    if d.shared {
      hs := hs + [Header(SharedInfo, offset, PAGE)];
      offset := offset + PAGE;
    }
  }

  /** Every header but the first moves by the room the headers take. */
  method FixUp(d: Dump, draft: seq<Header>, fixup: nat) returns (hs: seq<Header>)
    requires |draft| == Fixed(d) && Drafted(d, draft, fixup)
    ensures |hs| == Fixed(d) && Drafted(d, hs, 0)
  {
    hide Said, Sum;
    hs := draft;
    for i := 1 to |draft|
      invariant |hs| == |draft|
      invariant forall j :: i <= j < |hs| ==> hs[j] == draft[j]
      invariant hs[0] == draft[0] && forall j :: 1 <= j < i ==> hs[j] == draft[j].(offset := draft[j].offset + fixup)
    {
      hs := hs[i := hs[i].(offset := hs[i].offset + fixup)];
    }
  }

  /** The offset computation: headers for every section of the file and the padding before the pages. */
  method Headers(d: Dump) returns (hs: seq<Header>, padding: nat)
    ensures |hs| == Fixed(d) + 2 && hs[0] == Header(Null, 0, 0)
    ensures forall i :: 0 < i < |hs| ==>
      hs[i] == Header(SectionAt(d, i), Said(d, SectionAt(d, i)), SizeOf(d, SectionAt(d, i)))
    ensures Said(d, Pages) % PAGE == 0
    ensures padding == Said(d, Pages) - (Front(d) + NotesSize(d) + d.contexts + Sum(d.arch) + SharedSize(d))
  {
    hide Sum;
    var offset;
    hs, offset := Draft(d);
    var fixup := (|hs| + 2) * SHDR;
    hs := FixUp(d, hs, fixup);
    offset := offset + fixup;
    padding := RoundUp(offset) - offset;
    offset := offset + padding;
    hide RoundUp;
    hs := hs + [Header(Pages, offset, d.pages)];
    offset := offset + d.pages;
    hs := hs + [Header(Table, offset, d.table)];
    offset := offset + d.table;
    hs := hs[1 := hs[1].(offset := offset, size := d.strings)];
  }

  // ----- Writing -------------------------------------------------------------------------------------

  /** The output ends in `len` bytes of the section, with `off` bytes before them. */
  ghost predicate Ends(out: seq<Piece>, s: Section, off: nat, len: nat) {
    exists i :: 0 <= i <= |out| && Total(out[..i]) == off && Total(out) == off + len && OnlyFrom(out, i, s)
  }

  ghost predicate OnlyFrom(out: seq<Piece>, i: nat, s: Section) {
    forall k :: i <= k < |out| ==> out[k] == Inside(s, out[k].len)
  }

  /** The section is `len` bytes of the output in one go, with `off` bytes before it. */
  ghost predicate Starts(out: seq<Piece>, s: Section, off: nat, len: nat) {
    exists j :: 0 <= j <= |out| && Ends(out[..j], s, off, len)
  }

  lemma StartsKept(out: seq<Piece>, s: Section, off: nat, len: nat, p: Piece)
    requires Starts(out, s, off, len)
    ensures Starts(out + [p], s, off, len)
  {
    hide Ends;
    var j :| 0 <= j <= |out| && Ends(out[..j], s, off, len);
    assert (out + [p])[..j] == out[..j];
  }

  lemma EndsHere(out: seq<Piece>, s: Section)
    ensures Ends(out, s, Total(out), 0)
  {
    hide Total;
    assert out[..|out|] == out && OnlyFrom(out, |out|, s);
  }

  lemma EndsLater(out: seq<Piece>, s: Section, off: nat, len: nat, n: nat)
    requires Ends(out, s, off, len)
    ensures Ends(out + [Inside(s, n)], s, off, len + n)
  {
    hide Total;
    var i :| 0 <= i <= |out| && Total(out[..i]) == off && Total(out) == off + len && OnlyFrom(out, i, s);
    var all := out + [Inside(s, n)];
    TotalPush(out, Inside(s, n));
    assert all[..i] == out[..i] && OnlyFrom(all, i, s);
  }

  /** The sections written so far are where they ought to be. */
  ghost predicate Placed(d: Dump, out: seq<Piece>, done: set<Section>) {
    forall s :: s in done && Has(d, s) ==> Starts(out, s, Written(d, s), SizeOf(d, s))
  }

  lemma PlacedKept(d: Dump, out: seq<Piece>, done: set<Section>, p: Piece)
    requires Placed(d, out, done)
    ensures Placed(d, out + [p], done) && Total(out + [p]) == Total(out) + p.len
  {
    hide Starts, Written, SizeOf, Total;
    TotalPush(out, p);
    forall t | t in done && Has(d, t)
      ensures Starts(out + [p], t, Written(d, t), SizeOf(d, t))
    {
      StartsKept(out, t, Written(d, t), SizeOf(d, t), p);
    }
  }

  /** A section whose last byte has just been written. */
  lemma PlaceEnded(d: Dump, out: seq<Piece>, done: set<Section>, s: Section)
    requires Placed(d, out, done) && Has(d, s) && Ends(out, s, Written(d, s), SizeOf(d, s))
    ensures Placed(d, out, done + {s})
  {
    hide Ends, Written, SizeOf;
    assert out[..|out|] == out;
    assert Starts(out, s, Written(d, s), SizeOf(d, s));
  }

  /** A section written in one piece. */
  lemma Place(d: Dump, out: seq<Piece>, done: set<Section>, s: Section)
    requires Placed(d, out, done) && Has(d, s) && Total(out) == Written(d, s)
    ensures Placed(d, out + [Inside(s, SizeOf(d, s))], done + {s})
    ensures Total(out + [Inside(s, SizeOf(d, s))]) == Total(out) + SizeOf(d, s)
  {
    hide Placed, Ends, Written, SizeOf, Total;
    var p := Inside(s, SizeOf(d, s));
    PlacedKept(d, out, done, p);
    EndsHere(out, s);
    EndsLater(out, s, Total(out), 0, SizeOf(d, s));
    PlaceEnded(d, out + [p], done, s);
  }

  /** elfnote_dump_*: the fixed part of a note, then its descriptor. */
  method EmitNote(before: seq<Piece>, desc: nat, ghost off: nat, ghost len: nat) returns (out: seq<Piece>)
    requires Ends(before, Note, off, len)
    ensures Ends(out, Note, off, len + (ELFNOTE + desc)) && Total(out) == Total(before) + (ELFNOTE + desc)
    ensures out == before + [Inside(Note, 16), Inside(Note, desc)]
  {
    hide Ends, Total;
    EndsLater(before, Note, off, len, ELFNOTE);
    TotalPush(before, Inside(Note, ELFNOTE));
    out := before + [Inside(Note, ELFNOTE)];
    EndsLater(out, Note, off, len + ELFNOTE, desc);
    TotalPush(out, Inside(Note, desc));
    out := out + [Inside(Note, desc)];
  }

  /** The four notes, one after the other, fill the section declared for them. */
  method EmitNotes(d: Dump, before: seq<Piece>) returns (out: seq<Piece>)
    requires Total(before) == Front(d)
    ensures Placed(d, out, {Note}) && Total(out) == Front(d) + NotesSize(d)
    ensures out == before + [Inside(Note, 16), Inside(Note, d.notes.none), Inside(Note, 16), Inside(Note, d.notes.core),
                             Inside(Note, 16), Inside(Note, d.notes.xenVersion),
                             Inside(Note, 16), Inside(Note, d.notes.formatVersion)]
  {
    hide Ends, Total, Placed;
    EndsHere(before, Note);
    out := EmitNote(before, d.notes.none, Front(d), 0);
    out := EmitNote(out, d.notes.core, Front(d), ELFNOTE + d.notes.none);
    ghost var two := (ELFNOTE + d.notes.none) + (ELFNOTE + d.notes.core);
    out := EmitNote(out, d.notes.xenVersion, Front(d), two);
    out := EmitNote(out, d.notes.formatVersion, Front(d), two + (ELFNOTE + d.notes.xenVersion));
    NonePlaced(d, out);
    PlaceEnded(d, out, {}, Note);
    assert {} + {Note} == {Note};
  }

  lemma NonePlaced(d: Dump, out: seq<Piece>)
    ensures Placed(d, out, {})
  {}

  method EmitArch(d: Dump, before: seq<Piece>, ghost done: set<Section>)
    returns (out: seq<Piece>, ghost done': set<Section>)
    requires Placed(d, before, done) && Total(before) == Front(d) + NotesSize(d) + d.contexts + SharedSize(d)
    ensures Placed(d, out, done') && done <= done' && (forall k :: 0 <= k < |d.arch| ==> Arch(k) in done')
    ensures Total(out) == Total(before) + Sum(d.arch)
  {
    hide Placed, Total, Sum, RoundUp, Front;
    out, done' := before, done;
    SumNone(d.arch[..0]);
    for k := 0 to |d.arch|
      invariant Placed(d, out, done') && done <= done' && (forall j :: 0 <= j < k ==> Arch(j) in done')
      invariant Total(out) == Total(before) + Sum(d.arch[..k])
    {
      Place(d, out, done', Arch(k));
      out := out + [Inside(Arch(k), d.arch[k])];
      done' := done' + {Arch(k)};
      SumNext(d.arch, k);
    }
    assert d.arch[..|d.arch|] == d.arch;
  }

  /** The writes, in the order they are made: every section there is lands where Written says. */
  method Emit(d: Dump, count: nat, padding: nat) returns (out: seq<Piece>)
    requires count == Fixed(d) + 2
    requires padding == Said(d, Pages) - (Front(d) + NotesSize(d) + d.contexts + Sum(d.arch) + SharedSize(d))
    ensures forall s :: Has(d, s) ==> Starts(out, s, Written(d, s), SizeOf(d, s))
    ensures Total(out) == Said(d, Shstrtab) + d.strings
  {
    hide Starts, Placed, Total, Sum, RoundUp;
    out := [Outside(EHDR)];
    out := out + [Outside(count * SHDR)];
    HeadersFirst(EHDR, count * SHDR);
    out := EmitNotes(d, out);
    ghost var done := {Note};
    Place(d, out, done, Prstatus);
    out, done := out + [Inside(Prstatus, d.contexts)], done + {Prstatus};
    if d.shared {
      Place(d, out, done, SharedInfo);
      out, done := out + [Inside(SharedInfo, PAGE)], done + {SharedInfo};
    }
    out, done := EmitArch(d, out, done);
    PlacedKept(d, out, done, Outside(padding));
    out := out + [Outside(padding)];
    Place(d, out, done, Pages);
    out, done := out + [Inside(Pages, d.pages)], done + {Pages};
    Place(d, out, done, Table);
    out, done := out + [Inside(Table, d.table)], done + {Table};
    Place(d, out, done, Shstrtab);
    out, done := out + [Inside(Shstrtab, d.strings)], done + {Shstrtab};
    AllPlaced(d, out, done);
  }

  lemma HeadersFirst(m: nat, n: nat)
    ensures Total([Outside(m)] + [Outside(n)]) == m + n
  {
    TotalPush([], Outside(m));
    TotalPush([Outside(m)], Outside(n));
    assert [] + [Outside(m)] == [Outside(m)];
  }

  lemma AllPlaced(d: Dump, out: seq<Piece>, done: set<Section>)
    requires Placed(d, out, done) && {Note, Prstatus, Pages, Table, Shstrtab} <= done
    requires (d.shared ==> SharedInfo in done)
    requires forall k :: 0 <= k < |d.arch| ==> Arch(k) in done
    ensures forall s :: Has(d, s) ==> Starts(out, s, Written(d, s), SizeOf(d, s))
  {
    hide Starts, Written, SizeOf;
    forall s | Has(d, s)
      ensures s in done
    {
      match s {
        case Arch(k) =>
        case SharedInfo =>
        case Note =>
        case Prstatus =>
        case Pages =>
        case Table =>
        case Shstrtab =>
      }
    }
  }

  /** The whole file, for any set of sections.  Its headers tell the truth exactly in the cases of OffsetsRight. */
  method WriteLayout(d: Dump) returns (hs: seq<Header>, out: seq<Piece>)
    ensures |hs| == Fixed(d) + 2 && hs[0] == Header(Null, 0, 0)
    ensures forall i :: 0 < i < |hs| ==> hs[i].section == SectionAt(d, i) && hs[i].size == SizeOf(d, hs[i].section)
    ensures !d.shared || d.arch == [] ==>
      forall i :: 0 < i < |hs| ==> Starts(out, hs[i].section, hs[i].offset, hs[i].size)
    ensures forall i :: 0 < i < |hs| && hs[i].section == Pages ==> hs[i].offset % PAGE == 0
    ensures Total(out) == hs[1].offset + hs[1].size && hs[1].section == Shstrtab
  {
    hide Starts, Total;
    var padding;
    hs, padding := Headers(d);
    out := Emit(d, |hs|, padding);
    if !d.shared || d.arch == [] {
      hide Said, Written, SizeOf;
      OffsetsRight(d);
      forall i | 0 < i < |hs|
        ensures Starts(out, hs[i].section, hs[i].offset, hs[i].size)
      {
        assert Has(d, SectionAt(d, i));
      }
    }
  }

  /** What a domain has to dump; the size of the Xen version note depends on the build. */
  datatype Domain = Domain(nrVcpus: nat, contextSize: nat, nrPages: nat, autoTranslated: bool, sharedInfo: bool,
                           xenVersion: nat, strings: nat)

  function DumpOf(machine: Machine, dom: Domain): Dump {
    Dump(Notes(0, 32, dom.xenVersion, 8), dom.contextSize * dom.nrVcpus, ArchSections(machine), dom.sharedInfo,
         dom.nrPages * PAGE, dom.nrPages * (if dom.autoTranslated then 8 else 16), dom.strings)
  }

  /** Bytes each section of the file has: four notes of 16 bytes and a descriptor each, a context a vcpu, a page a page,
      and 8 bytes a pfn or 16 a pair of pfn and gmfn. */
  function BytesOf(dom: Domain, s: Section): nat {
    match s
    case Note => 4 * 16 + 0 + 32 + dom.xenVersion + 8
    case Prstatus => dom.contextSize * dom.nrVcpus
    case SharedInfo => 4096
    case Pages => dom.nrPages * 4096
    case Table => if dom.autoTranslated then dom.nrPages * 8 else dom.nrPages * 16
    case Shstrtab => dom.strings
    case _ => 0
  }

  predicate Wanted(dom: Domain, s: Section) {
    s == Note || s == Prstatus || s == Pages || s == Table || s == Shstrtab || (s == SharedInfo && dom.sharedInfo)
  }

  ghost predicate HasHeader(hs: seq<Header>, s: Section) {
    exists i :: 0 < i < |hs| && hs[i].section == s
  }

  /** The core file of a domain on either machine: every section there should be has a header, which gives its place
      and its size, and all of the section is there. */
  method WriteCore(machine: Machine, dom: Domain) returns (hs: seq<Header>, out: seq<Piece>)
    ensures |hs| == (if dom.sharedInfo then 7 else 6) && hs[0] == Header(Null, 0, 0)
    ensures forall s :: Wanted(dom, s) ==> HasHeader(hs, s)
    ensures forall i :: 0 < i < |hs| ==>
              && Starts(out, hs[i].section, hs[i].offset, hs[i].size) && hs[i].size == BytesOf(dom, hs[i].section)
              && (hs[i].section == Pages ==> hs[i].offset % 4096 == 0)
    ensures Total(out) == hs[1].offset + hs[1].size && hs[1].section == Shstrtab
  {
    hide Starts, Total;
    var d := DumpOf(machine, dom);
    hs, out := WriteLayout(d);
    forall s | Wanted(dom, s)
      ensures HasHeader(hs, s)
    {
      assert hs[HeaderOf(d, s)].section == s;
    }
  }

  /** The header of a section. */
  function HeaderOf(d: Dump, s: Section): (i: nat)
    requires Has(d, s)
    ensures 0 < i < Fixed(d) + 2 && SectionAt(d, i) == s
  {
    match s
    case Shstrtab => 1
    case Note => 2
    case Prstatus => 3
    case Arch(k) => 4 + k
    case SharedInfo => Fixed(d) - 1
    case Pages => Fixed(d)
    case Table => Fixed(d) + 1
  }
}
