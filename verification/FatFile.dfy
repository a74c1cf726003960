/**
 Open files: reading, writing, seeking and truncating, against the file's contents as one byte sequence.
 */
module FatFile {
  import opened FatLayout
  import opened FatWindow
  import opened FatAlloc
  import opened FatContent
  import opened FatFileState
  import Chains = FatChains

  /** A file's growth leaves no invalid entry in a table that was a forest before. */
  lemma SoundTable(g: Geometry, v0: seq<Sector>, ch0: seq<nat>, v: seq<Sector>, ch: seq<nat>)
    requires g.Good(|v0|) && Evolves(g, v0, ch0, v, ch)
    ensures Chains.Forest(Entries(v0, g)) ==> !HasInvalid(Entries(v, g))
  {
    hide Entries, HasInvalid, Chains.Forest;
    if Chains.Forest(Entries(v0, g)) {
      ForestValid(Entries(v, g));
    }
  }

  /** With a right free count a full volume has no free cluster. */
  lemma NoRoom(fs: FATFS)
    requires fs.Valid()
    ensures FreeCountOk(fs) && Full(fs) ==> NoneFree(fs.Fat())
  {
    hide Full, NoneFree, FreeCountOk, FATFS.Fat;
    if FreeCountOk(fs) {
      FullMeans(fs);
    }
  }

  lemma TwoSlices(s: seq<byte>, a: nat, b: nat, c: nat)
    requires a <= b <= c <= |s|
    ensures s[a..c] == s[a..b] + s[b..c]
  {
  }

  class FIL {
    const fs: FATFS
    const buf: array<byte>      // sector buffer
    const canRead: bool         // FA_READ
    const canWrite: bool        // FA_WRITE
    var dirty: bool             // FA_DIRTY: the buffer is newer than the medium
    var modified: bool          // FA_MODIFIED
    var err: FResult
    var sclust: nat             // first cluster, 0 if none
    var objsize: nat            // file size
    var fptr: nat               // read/write position
    var clust: nat              // cluster of the byte before fptr
    var sect: nat               // sector in the buffer, 0 if none
    ghost var chain: seq<nat>   // the clusters of the file

    ghost function State(): FileState
      requires buf.Length == 512
      reads this, buf
    {
      FileState(sclust, objsize, fptr, clust, sect, dirty, buf[..], chain)
    }

    /** Consistent, except that clust and sect may not yet be where the position needs them. */
    ghost predicate Core()
      reads this, fs, fs.win, buf
    {
      && fs.Valid() && buf.Length == 512 && buf != fs.win
      && Ok(fs.g, fs.View(), fs.winsect, State())
    }

    ghost predicate Valid()
      reads this, fs, fs.win, buf
    {
      Core() && Positioned(fs.g, State())
    }

    /** What the file contains. */
    ghost function Data(): (c: seq<byte>)
      requires Core()
      reads this, fs, fs.win, buf
      ensures |c| == objsize
    {
      Content(fs.g, fs.View(), State())
    }

    /** The end of f_open, once the directory entry has told the first cluster and the size. */
    constructor (fs: FATFS, canRead: bool, canWrite: bool, sclust: nat, objsize: nat, ghost chain: seq<nat>)
      requires fs.Valid() && objsize < 0x1_0000_0000
      requires if sclust == 0 then chain == [] else Chains.Reaches(fs.Fat(), sclust, chain)
      requires Clusters(fs.g, chain) && Covers(fs.g, chain, objsize) && !Owns(fs.g, chain, fs.winsect)
      ensures Valid() && fresh(buf) && this.fs == fs && this.canRead == canRead && this.canWrite == canWrite
      ensures fptr == 0 && sect == 0 && err == FR_OK && !modified && this.chain == chain && this.objsize == objsize
      ensures Data() == ContentOf(fs.View(), fs.g, chain, objsize)
    {
      this.fs, this.canRead, this.canWrite := fs, canRead, canWrite;
      this.sclust, this.objsize, this.chain := sclust, objsize, chain;
      buf := new byte[512](_ => 0);
      dirty, modified, err := false, false, FR_OK;
      fptr, clust, sect := 0, 0, 0;
    }

    /** disk_write of the dirty buffer. */
    method WriteBack()
      requires fs.Valid() && buf.Length == 512 && fs.g.database <= sect < |fs.medium| && sect != fs.winsect
      modifies fs`medium, this`dirty
      ensures fs.Valid() && !dirty && fs.View() == old(fs.View())[sect := buf[..]] && fs.Fat() == old(fs.Fat())
      ensures old(Mirrored(fs.g, fs.medium)) ==> Mirrored(fs.g, fs.medium)
    {
      DataSector(fs.g, fs.View(), sect, buf[..]);
      DataSector(fs.g, fs.medium, sect, buf[..]);
      fs.medium := fs.medium[sect := buf[..]];
      dirty := false;
      assert fs.View() == old(fs.View())[sect := buf[..]];
    }

    /** Writes the buffer back if it is dirty. */
    method Flush()
      requires Core()
      modifies fs`medium, this`dirty
      ensures Core() && State() == old(State()).(dirty := false)
      ensures fs.View() == old(Overlay(fs.View(), State())) && fs.Fat() == old(fs.Fat())
      ensures Data() == old(Data())
      ensures Evolves(fs.g, old(fs.View()), chain, fs.View(), chain)
      ensures old(Mirrored(fs.g, fs.medium)) ==> Mirrored(fs.g, fs.medium)
    {
      hide ContentOf, Evolves, Mirrored, Entries;
      EvolvesSelf(fs.g, fs.View(), chain);
      if dirty {
        FlushOk(fs.g, fs.View(), fs.winsect, State());
        WriteBack();
      }
    }

    /** create_chain behind the i-th cluster of the file; ch' is the chain it leaves. */
    method CreateBehind(c: nat, ghost i: int) returns (r: nat, ghost ch': seq<nat>)
      requires Core() && -1 <= i < |chain| && (if i < 0 then c == 0 && chain == [] else c == chain[i])
      modifies fs, fs.win
      ensures fs.Noted()
      ensures fs.Valid() && |fs.medium| == old(|fs.medium|) && KeepsData(fs.g, old(fs.View()), fs.View())
      ensures old(Mirrored(fs.g, fs.medium)) ==> Mirrored(fs.g, fs.medium)
      ensures old(FreeCountOk(fs)) ==> FreeCountOk(fs)
      ensures Stretched(old(fs.Fat()), chain, fs.Fat(), ch', fs.g.EndMark())
      ensures r == 0 ==> Full(fs)
      ensures r == 1 ==> HasInvalid(fs.Fat())
      ensures if r < 2 then ch' == chain && fs.Fat() == old(fs.Fat()) && i + 1 == |chain|
              else i + 1 < |ch'| && r == ch'[i + 1] && Chains.IsChain(fs.Fat(), ch')
      ensures fs.winsect == old(fs.winsect) || fs.g.InFat1(fs.winsect)
      ensures ch' == chain || fs.g.InFat1(fs.winsect)
    {
      ghost var fat, free, last := fs.Fat(), fs.freeClst, fs.lastClst;
      r := CreateChain(fs, c);
      StretchOutcome(fs.g, |fs.medium|, fat, chain, i, c, free, last, r, fs.Fat());
      ch' := Grown(fat, chain, r, fs.Fat());
    }

    /**
     create_chain on the file: follows its chain behind the i-th cluster, or stretches it if it ends there
     (i == -1 and c == 0 create the chain).  0 means the volume is full, 1 an insane allocation table.
     */
    method Stretch(c: nat, ghost i: int) returns (r: nat)
      requires Core() && -1 <= i < |chain| && (if i < 0 then c == 0 && chain == [] else c == chain[i])
      modifies this`sclust, this`chain, fs, fs.win
      ensures fs.Noted()
      ensures Core() && Data() == old(Data())
      ensures Evolves(fs.g, old(fs.View()), old(chain), fs.View(), chain)
      ensures old(Mirrored(fs.g, fs.medium)) ==> Mirrored(fs.g, fs.medium)
      ensures old(FreeCountOk(fs)) ==> FreeCountOk(fs)
      ensures r == 0 ==> Full(fs)
      ensures r == 1 ==> HasInvalid(fs.Fat())
      ensures if r < 2 then State() == old(State()) && i + 1 == |chain| else i + 1 < |chain| && r == chain[i + 1]
      ensures fs.winsect == old(fs.winsect) || fs.g.InFat1(fs.winsect)
    {
      hide ChainOk, BufferOk, Evolves, Entries, Mirrored, Content;
      ghost var v, win, st := fs.View(), fs.winsect, State();
      ghost var ch';
      r, ch' := CreateBehind(c, i);
      StretchStep(fs.g, v, win, st, fs.View(), fs.winsect, ch', c, i, r);
      chain := ch';
      if c == 0 && r >= 2 {
        sclust := r;
      }
      assert State() == st.(chain := ch', sclust := if c == 0 && r >= 2 then r else st.sclust);
    }

    /** The cluster-boundary part of f_write: gets to the cluster of fptr, allocating it if need be. */
    method EnterForWrite() returns (r: nat)
      requires Valid() && fptr % 512 == 0 && Col(fs.g.csize, fptr / 512) == 0
      modifies this`clust, this`sclust, this`chain, fs, fs.win
      ensures fs.Noted()
      ensures Core() && Data() == old(Data())
      ensures Evolves(fs.g, old(fs.View()), old(chain), fs.View(), chain)
      ensures old(Mirrored(fs.g, fs.medium)) ==> Mirrored(fs.g, fs.medium)
      ensures old(FreeCountOk(fs)) ==> FreeCountOk(fs)
      ensures r == 0 ==> Full(fs)
      ensures r == 1 ==> HasInvalid(fs.Fat())
      ensures if r < 2 then Positioned(fs.g, State()) else Located(fs.g, State())
      ensures fs.winsect == old(fs.winsect) || fs.g.InFat1(fs.winsect)
    {
      hide ChainOk, BufferOk, Evolves, Row, Col, Entries, Mirrored, Content;
      EnterIndex(fs.g, fs.View(), fs.winsect, State());
      if fptr == 0 {
        r := sclust;
        if r == 0 {
          r := Stretch(0, -1);
        } else {
          EvolvesSelf(fs.g, fs.View(), chain);
        }
      } else {
        r := Stretch(clust, Row(fs.g.csize, (fptr - 1) / 512));
      }
      if r >= 2 {
        ghost var st := State();
        OkClust(fs.g, fs.View(), fs.winsect, st, r);
        clust := r;
        assert State() == st.(clust := r);
      }
    }

    /** Refills the sector buffer if the sectors just written from wbuff include its own. */
    method Refill(wbuff: array<byte>, ofs: nat, sect1: nat, cc: nat)
      requires buf.Length == 512 && wbuff != buf && ofs + 512 * cc <= wbuff.Length
      requires sect < 0x1_0000_0000 && sect1 + cc <= 0x1_0000_0000
      modifies buf
      ensures sect1 <= sect < sect1 + cc ==>
        buf[..] == wbuff[ofs..ofs + 512 * cc][512 * (sect - sect1)..512 * (sect - sect1) + 512]
      ensures !(sect1 <= sect < sect1 + cc) ==> buf[..] == old(buf[..])
    {
      InRunMeans(sect, sect1, cc);
      if InRun(sect, sect1, cc) {
        ghost var data := wbuff[ofs..ofs + 512 * cc];
        var d := 512 * (sect - sect1);
        forall i | 0 <= i < 512 {
          buf[i] := wbuff[ofs + d + i];
        }
        assert forall i | 0 <= i < 512 :: buf[i] == data[d + i];
        assert buf[..] == data[d..d + 512];
        assert wbuff[ofs..ofs + 512 * cc] == data;
      }
    }

    /** f_write's transfer of whole sectors: cc of them straight from wbuff to the medium. */
    method WriteDirect(wbuff: array<byte>, ofs: nat, sect1: nat, cc: nat)
      requires Core() && !dirty && wbuff != buf && wbuff != fs.win && ofs + 512 * cc <= wbuff.Length
      requires Aligned(fs.g, fs.View(), State(), 512 * cc) && sect1 == Lba(fs.g, chain, fptr / 512)
      requires fptr + 512 * cc < 0x1_0000_0000
      modifies fs`medium, buf, this`fptr, this`objsize
      ensures Valid() && !dirty && fptr == old(fptr) + 512 * cc
      ensures Data() == Overwrite(old(Data()), old(fptr), wbuff[ofs..ofs + 512 * cc])
      ensures Evolves(fs.g, old(fs.View()), chain, fs.View(), chain) && fs.Fat() == old(fs.Fat())
      ensures old(Mirrored(fs.g, fs.medium)) ==> Mirrored(fs.g, fs.medium)
    {
      hide ChainOk, BufferOk, Evolves, Entries, Content, Aligned, Positioned, Mirrored, WriteSectors;
      ghost var v, win, st, data := fs.View(), fs.winsect, State(), wbuff[ofs..ofs + 512 * cc];
      assert |data| == 512 * cc;
      WholeSectors(cc);
      SectBound(fs.g, v, win, st);
      AlignedFits(fs.g, v, win, st, 512 * cc);
      DirectOk(fs.g, v, win, st, data);
      DirectContent(fs.g, v, win, st, data);
      AlignedMedium(fs.g, v, fs.medium, win, st, data);
      ghost var st' := Direct(st, sect1, data);
      fs.DiskWrite(sect1, wbuff, ofs, cc);
      Refill(wbuff, ofs, sect1, cc);
      fptr := fptr + 512 * cc;
      objsize := if fptr > objsize then fptr else objsize;
      assert State() == st';
    }

    /** f_write's preparation of the sector buffer at a sector boundary; on the growing edge nothing is read. */
    method PrepareBuffer(sect1: nat)
      requires Core() && !dirty && Located(fs.g, State()) && fptr % 512 == 0
      requires sect1 == Lba(fs.g, chain, fptr / 512)
      modifies buf, this`sect
      ensures fs.Valid() && buf.Length == 512 && fs.View() == old(fs.View())
      ensures Ready(fs.g, fs.View(), fs.winsect, State())
      ensures Content(fs.g, fs.View(), State()) == old(Data()) && !dirty
    {
      hide Evolves, Entries, Content, Row, Col;
      ghost var v, st := fs.View(), State();
      LbaInside(fs.g, |v|, chain, fptr / 512);
      if sect != sect1 && fptr < objsize {
        fs.DiskRead(sect1, buf, 0, 1);
        assert buf[..] == v[sect1];
      }
      sect := sect1;
      ReadyAfter(fs.g, v, fs.winsect, st, sect1, buf[..]);
      assert State() == st.(sect := sect1, buf := buf[..]);
    }

    /** memcpy of n bytes into the sector buffer. */
    method CopyIn(wbuff: array<byte>, ofs: nat, n: nat, o: nat)
      requires buf.Length == 512 && wbuff != buf && ofs + n <= wbuff.Length && o + n <= 512
      modifies buf
      ensures buf[..] == old(buf[..])[..o] + old(wbuff[ofs..ofs + n]) + old(buf[..])[o + n..]
    {
      forall i | 0 <= i < n {
        buf[o + i] := wbuff[ofs + i];
      }
    }

    /** memcpy into the sector buffer at fptr, and what f_write's loop header does after it. */
    method PutBytes(wbuff: array<byte>, ofs: nat, n: nat)
      requires buf.Length == 512 && wbuff != buf && ofs + n <= wbuff.Length && fptr % 512 + n <= 512
      modifies buf, this`dirty, this`fptr, this`objsize
      ensures State() == old(Put(State(), wbuff[ofs..ofs + n]))
    {
      ghost var st := State();
      CopyIn(wbuff, ofs, n, fptr % 512);
      dirty := true;
      fptr := fptr + n;
      objsize := if fptr > objsize then fptr else objsize;
      assert State() == st.(buf := buf[..], dirty := true, fptr := fptr, objsize := objsize);
    }

    /** f_write's transfer into the sector buffer, up to the end of the sector. */
    method WriteBuffered(wbuff: array<byte>, ofs: nat, btw: nat) returns (n: nat)
      requires fs.Valid() && buf.Length == 512 && buf != fs.win && wbuff != buf && wbuff != fs.win
      requires Ready(fs.g, fs.View(), fs.winsect, State())
      requires 0 < btw && ofs + btw <= wbuff.Length && fptr + btw < 0x1_0000_0000
      modifies buf, this`dirty, this`fptr, this`objsize
      ensures 0 < n <= btw
      ensures Valid() && fptr == old(fptr) + n
      ensures Data() == Overwrite(old(Content(fs.g, fs.View(), State())), old(fptr), wbuff[ofs..ofs + n])
    {
      hide Evolves, Entries, Content, Ready, Row, Col, ChainOk, BufferOk, Positioned, Mirrored, Overwrite;
      n := 512 - fptr % 512;
      if n > btw {
        n := btw;
      }
      ghost var data := wbuff[ofs..ofs + n];
      PutOk(fs.g, fs.View(), fs.winsect, State(), data);
      PutContent(fs.g, fs.View(), fs.winsect, State(), data);
      PutBytes(wbuff, ofs, n);
      assert wbuff[ofs..ofs + n] == data;
    }

    /** One round of f_write's loop from a sector boundary, once the cluster of fptr is at hand. */
    method WriteAtBoundary(wbuff: array<byte>, ofs: nat, btw: nat) returns (wcnt: nat)
      requires Core() && Located(fs.g, State()) && fptr % 512 == 0
      requires wbuff != buf && wbuff != fs.win && 0 < btw && ofs + btw <= wbuff.Length && fptr + btw < 0x1_0000_0000
      modifies fs`medium, buf, this`dirty, this`sect, this`fptr, this`objsize
      ensures Valid() && 0 < wcnt <= btw && fptr == old(fptr) + wcnt
      ensures Data() == Overwrite(old(Data()), old(fptr), wbuff[ofs..ofs + wcnt])
      ensures Evolves(fs.g, old(fs.View()), chain, fs.View(), chain) && fs.Fat() == old(fs.Fat())
      ensures old(Mirrored(fs.g, fs.medium)) ==> Mirrored(fs.g, fs.medium)
      ensures old(OwnSector(fs.g, chain, sect)) ==> OwnSector(fs.g, chain, sect)
    {
      hide Evolves, Entries, Content, Row, Col, ChainOk, BufferOk, Positioned, Mirrored, Overwrite, Aligned, Owns;
      SectorOffset(fs.g, fs.View(), State());
      var csect := fptr / 512 % fs.g.csize;
      ghost var v0 := fs.View();
      Flush();
      ghost var v1 := fs.View();
      ChainClustersOk(fs.g, v1, fs.winsect, State());
      var sect1 := Clst2Sect(fs, clust);
      sect1 := sect1 + csect;
      var cc := btw / 512;
      if cc > 0 {
        if csect + cc > fs.g.csize {
          cc := fs.g.csize - csect;
        }
        AlignedNow(fs.g, v1, fs.winsect, State(), cc);
        WriteDirect(wbuff, ofs, sect1, cc);
        wcnt := 512 * cc;
        EvolvesTrans(fs.g, v0, chain, v1, chain, fs.View(), chain);
      } else {
        LbaInside(fs.g, |v1|, chain, fptr / 512);
        PrepareBuffer(sect1);
        wcnt := WriteBuffered(wbuff, ofs, btw);
        assert fs.View() == v1;
      }
    }

    /** At a sector boundary: the cluster of the position, a new one where the file has to grow. */
    method EnterSector() returns (r: nat)
      requires Valid() && fptr % 512 == 0
      modifies this`clust, this`sclust, this`chain, fs, fs.win
      ensures fs.Noted()
      ensures Core() && Data() == old(Data())
      ensures Evolves(fs.g, old(fs.View()), old(chain), fs.View(), chain)
      ensures old(Mirrored(fs.g, fs.medium)) ==> Mirrored(fs.g, fs.medium)
      ensures old(FreeCountOk(fs)) ==> FreeCountOk(fs)
      ensures r == 0 ==> Full(fs)
      ensures r == 1 ==> HasInvalid(fs.Fat())
      ensures if r < 2 then Positioned(fs.g, State()) else Located(fs.g, State())
      ensures fs.winsect == old(fs.winsect) || fs.g.InFat1(fs.winsect)
    {
      hide Evolves, Entries, Content, Row, Col, ChainOk, BufferOk, Mirrored, Full, NoneFree, HasInvalid, FATFS.View;
      r := 2;
      CsectFormula(fs.g, fptr);
      if fptr / 512 % fs.g.csize == 0 {
        r := EnterForWrite();
      } else {
        LocatedInside(fs.g, State());
        EvolvesSelf(fs.g, fs.View(), chain);
      }
    }

    /**
     One round of f_write's loop: at most btw bytes of wbuff from ofs on.  r is 0 if the volume is full and
     1 if the allocation table is insane; then nothing is written.
     */
    method WriteRound(wbuff: array<byte>, ofs: nat, btw: nat) returns (r: nat, wcnt: nat)
      requires Valid()
      requires wbuff != buf && wbuff != fs.win && 0 < btw && ofs + btw <= wbuff.Length && fptr + btw < 0x1_0000_0000
      modifies this`dirty, this`sclust, this`objsize, this`fptr, this`clust, this`sect, this`chain, buf, fs, fs.win
      ensures fs.Noted()
      ensures Valid() && wcnt <= btw && fptr == old(fptr) + wcnt && (wcnt > 0 <==> r >= 2)
      ensures Data() == Overwrite(old(Data()), old(fptr), wbuff[ofs..ofs + wcnt])
      ensures Evolves(fs.g, old(fs.View()), old(chain), fs.View(), chain)
      ensures old(Mirrored(fs.g, fs.medium)) ==> Mirrored(fs.g, fs.medium)
      ensures old(FreeCountOk(fs)) ==> FreeCountOk(fs)
      ensures r == 0 ==> Full(fs)
      ensures r == 1 ==> HasInvalid(fs.Fat())
      ensures fs.winsect == old(fs.winsect) || fs.g.InFat1(fs.winsect)
      ensures old(OwnSector(fs.g, chain, sect)) ==> OwnSector(fs.g, chain, sect)
    {
      hide Evolves, Entries, Content, Row, Col, ChainOk, BufferOk, Mirrored, Overwrite, Full, NoneFree;
      hide HasInvalid, Positioned, Located, FATFS.View;
      ghost var v0, ch0 := fs.View(), chain;
      r, wcnt := 2, 0;
      if fptr % 512 == 0 {
        r := EnterSector();
        if r < 2 {
          ChainClustersOk(fs.g, fs.View(), fs.winsect, State());
          OwnGrows(fs.g, v0, ch0, fs.View(), chain, sect);
          OverwriteNothing(Data(), fptr, wbuff[ofs..ofs + wcnt]);
          return;
        }
        ghost var v1 := fs.View();
        OwnGrows(fs.g, v0, ch0, v1, chain, sect);
        wcnt := WriteAtBoundary(wbuff, ofs, btw);
        ChainClustersOk(fs.g, fs.View(), fs.winsect, State());
        EvolvesTrans(fs.g, v0, ch0, v1, chain, fs.View(), chain);
      } else {
        ReadyInside(fs.g, v0, fs.winsect, State());
        wcnt := WriteBuffered(wbuff, ofs, btw);
        EvolvesSelf(fs.g, v0, chain);
      }
    }

    /** f_write's loop over clusters and sectors; bad tells that it ended on an insane allocation table. */
    method WriteRounds(wbuff: array<byte>, btw0: nat) returns (bad: bool, bw: nat)
      requires Valid() && wbuff != buf && wbuff != fs.win && btw0 <= wbuff.Length && btw0 < 0x1_0000_0000
      modifies this`dirty, this`sclust, this`objsize, this`fptr, this`clust, this`sect, this`chain, buf, fs, fs.win
      ensures fs.Noted()
      ensures Valid() && bw <= btw0 && (bad ==> HasInvalid(fs.Fat()))
      ensures Data() == Overwrite(old(Data()), old(fptr), wbuff[..bw]) && fptr == old(fptr) + bw
      ensures !bad ==> bw == WriteLimit(old(fptr), btw0) || Full(fs)
      ensures Evolves(fs.g, old(fs.View()), old(chain), fs.View(), chain)
      ensures old(Mirrored(fs.g, fs.medium)) ==> Mirrored(fs.g, fs.medium)
      ensures old(FreeCountOk(fs)) ==> FreeCountOk(fs)
      ensures fs.winsect == old(fs.winsect) || fs.g.InFat1(fs.winsect)
      ensures old(OwnSector(fs.g, chain, sect)) ==> OwnSector(fs.g, chain, sect)
    {
      hide Evolves, Entries, Content, Ok, Positioned, Mirrored, Overwrite, Full, NoneFree, HasInvalid, FATFS.View;
      ghost var v0, ch0, data0, p0 := fs.View(), chain, Data(), fptr;
      StateBounds();
      EvolvesSelf(fs.g, v0, ch0);
      OverwriteNothing(data0, p0, wbuff[..0]);
      bad, bw := false, 0;
      var btw := WriteLimit(fptr, btw0);
      while btw > 0
        invariant fs.Noted()
        invariant fs.winsect == old(fs.winsect) || fs.g.InFat1(fs.winsect)
        invariant old(OwnSector(fs.g, chain, sect)) ==> OwnSector(fs.g, chain, sect)
        invariant Valid() && fptr == p0 + bw && bw + btw == WriteLimit(p0, btw0)
        invariant p0 <= |data0| && Data() == Overwrite(data0, p0, wbuff[..bw])
        invariant Evolves(fs.g, v0, ch0, fs.View(), chain)
        invariant old(Mirrored(fs.g, fs.medium)) ==> Mirrored(fs.g, fs.medium)
        invariant old(FreeCountOk(fs)) ==> FreeCountOk(fs)
      {
        ghost var v1, ch1, n := fs.View(), chain, bw;
        var r, wcnt := WriteRound(wbuff, bw, btw);
        StateBounds();
        EvolvesTrans(fs.g, v0, ch0, v1, ch1, fs.View(), chain);
        OverwriteSlices(data0, p0, wbuff[..], n, wcnt);
        btw := btw - wcnt;
        bw := bw + wcnt;
        if r < 2 {
          bad := r == 1;
          return;
        }
      }
    }

    /** f_write: overwrites or extends the contents at fptr with a prefix of wbuff. */
    method Write(wbuff: array<byte>, btw0: nat) returns (res: FResult, bw: nat)
      requires Valid() && wbuff != buf && wbuff != fs.win && btw0 <= wbuff.Length && btw0 < 0x1_0000_0000
      modifies this, buf, fs, fs.win
      ensures fs.Noted()
      ensures Valid() && bw <= btw0
      ensures old(err) != FR_OK ==> res == old(err) && bw == 0
      ensures old(err) == FR_OK && !canWrite ==> res == FR_DENIED && bw == 0
      ensures Data() == Overwrite(old(Data()), old(fptr), wbuff[..bw]) && fptr == old(fptr) + bw
      ensures old(err) == FR_OK && canWrite && res == FR_OK ==>
        modified && (bw == WriteLimit(old(fptr), btw0) || Full(fs))
      ensures old(err) == FR_OK && (res == FR_OK || !canWrite) ==> err == FR_OK
      ensures old(FreeCountOk(fs) && err == FR_OK) && canWrite && res == FR_OK && bw < WriteLimit(old(fptr), btw0) ==>
        NoneFree(fs.Fat())
      ensures old(err) == FR_OK && canWrite && res != FR_OK ==> res == FR_INT_ERR && err == res && HasInvalid(fs.Fat())
      ensures old(err) == FR_OK && canWrite && Chains.Forest(old(fs.Fat())) ==> res == FR_OK
      ensures Evolves(fs.g, old(fs.View()), old(chain), fs.View(), chain)
      ensures old(Mirrored(fs.g, fs.medium)) ==> Mirrored(fs.g, fs.medium)
      ensures old(FreeCountOk(fs)) ==> FreeCountOk(fs)
      ensures fs.winsect == old(fs.winsect) || fs.g.InFat1(fs.winsect)
      ensures old(OwnSector(fs.g, chain, sect)) ==> OwnSector(fs.g, chain, sect)
    {
      hide Evolves, Entries, Content, Ok, Positioned, Mirrored, Overwrite, Full, NoneFree, HasInvalid, Chains.Forest;
      ghost var v0, ch0, data0, p0 := fs.View(), chain, Data(), fptr;
      StateBounds();
      EvolvesSelf(fs.g, v0, ch0);
      OverwriteNothing(data0, p0, wbuff[..0]);
      res, bw := err, 0;
      if res != FR_OK {
        return;
      }
      if !canWrite {
        return FR_DENIED, 0;
      }
      var bad;
      bad, bw := WriteRounds(wbuff, btw0);
      if bad {
        SoundTable(fs.g, v0, ch0, fs.View(), chain);
        err := FR_INT_ERR;
        return FR_INT_ERR, bw;
      }
      modified := true;
      NoRoom(fs);
    }

    lemma StateBounds()
      requires Core()
      ensures Clusters(fs.g, chain) && fptr <= objsize == |Data()| && objsize < 0x1_0000_0000
    {
      ChainClustersOk(fs.g, fs.View(), fs.winsect, State());
    }

    // ---------- reading ----------

    /** The cluster-boundary part of f_read: gets to the cluster of fptr. */
    method EnterForRead()
      requires Valid() && fptr < objsize && fptr % 512 == 0 && Col(fs.g.csize, fptr / 512) == 0
      modifies this`clust, fs`medium, fs`wflag, fs`winsect, fs.win
      ensures Core() && Located(fs.g, State()) && Data() == old(Data())
      ensures Evolves(fs.g, old(fs.View()), chain, fs.View(), chain) && fs.Fat() == old(fs.Fat())
      ensures old(Mirrored(fs.g, fs.medium)) ==> Mirrored(fs.g, fs.medium)
      ensures fs.winsect == old(fs.winsect) || fs.g.InFat1(fs.winsect)
    {
      hide Evolves, Entries, Content, Row, Col, ChainOk, BufferOk, Mirrored;
      ghost var v, win, st := fs.View(), fs.winsect, State();
      NextCluster(fs.g, v, win, st);
      var clst := sclust;
      if fptr == 0 {
        EvolvesSelf(fs.g, v, chain);
      } else {
        clst := fs.GetFat(clust);
        WindowMoved(fs.g, v, win, st, fs.View(), fs.winsect);
      }
      if clst < 2 {
        assert false;
      }
      clust := clst;
      OkClust(fs.g, fs.View(), fs.winsect, st, clst);
      assert State() == st.(clust := clst);
    }

    /** cc sectors of the file's data into rbuff: from the medium, but the dirty one from the buffer. */
    method Fetch(rbuff: array<byte>, ofs: nat, sect1: nat, cc: nat)
      requires Core() && rbuff != buf && rbuff != fs.win && ofs + 512 * cc <= rbuff.Length
      requires fs.g.database <= sect1 && sect1 + cc <= |fs.medium| && !(sect1 <= fs.winsect < sect1 + cc)
      modifies rbuff
      ensures forall i | 0 <= i < 512 * cc ::
        rbuff[ofs + i] == Overlay(fs.View(), State())[sect1 + i / 512][i % 512]
      ensures forall i | 0 <= i < ofs :: rbuff[i] == old(rbuff[i])
    {
      hide Evolves, Entries, Content, ChainOk, Owns;
      SectBound(fs.g, fs.View(), fs.winsect, State());
      fs.DiskRead(sect1, rbuff, ofs, cc);
      InRunMeans(sect, sect1, cc);
      if dirty && InRun(sect, sect1, cc) {
        forall i | 0 <= i < 512 {
          rbuff[ofs + 512 * (sect - sect1) + i] := buf[i];
        }
      }
    }

    /** f_read's transfer of whole sectors. */
    method ReadDirect(rbuff: array<byte>, ofs: nat, sect1: nat, cc: nat)
      requires Core() && rbuff != buf && rbuff != fs.win && ofs + 512 * cc <= rbuff.Length
      requires Aligned(fs.g, fs.View(), State(), 512 * cc) && sect1 == Lba(fs.g, chain, fptr / 512)
      requires fptr + 512 * cc <= objsize
      modifies rbuff, this`fptr
      ensures Valid() && fptr == old(fptr) + 512 * cc && Data() == old(Data())
      ensures rbuff[ofs..ofs + 512 * cc] == Data()[old(fptr)..fptr]
      ensures rbuff[..ofs] == old(rbuff[..ofs])
    {
      hide Evolves, Entries, Content, Row, Col, ChainOk, BufferOk, Aligned, Positioned, Located, Overlay, FATFS.View;
      ghost var v, win, st := fs.View(), fs.winsect, State();
      WholeSectors(cc);
      AlignedFits(fs.g, v, win, st, 512 * cc);
      AlignedMedium(fs.g, v, v, win, st, seq(512 * cc, _ => 0));
      SkipAligned(fs.g, v, win, st, 512 * cc);
      Fetch(rbuff, ofs, sect1, cc);
      ReadRuns(fs.g, v, win, st, 512 * cc, rbuff[ofs..ofs + 512 * cc]);
      fptr := fptr + 512 * cc;
      assert State() == st.(fptr := st.fptr + 512 * cc);
    }

    /** f_read's filling of the sector buffer at a sector boundary. */
    method LoadBuffer(sect1: nat)
      requires Core() && Located(fs.g, State()) && fptr % 512 == 0 && sect1 == Lba(fs.g, chain, fptr / 512)
      modifies fs`medium, buf, this`dirty, this`sect
      ensures fs.Valid() && buf.Length == 512 && buf != fs.win
      ensures Loaded(fs.g, fs.View(), fs.winsect, State())
      ensures Content(fs.g, fs.View(), State()) == old(Data())
      ensures Evolves(fs.g, old(fs.View()), chain, fs.View(), chain) && fs.Fat() == old(fs.Fat())
      ensures old(Mirrored(fs.g, fs.medium)) ==> Mirrored(fs.g, fs.medium)
    {
      hide Evolves, Entries, Content, Row, Col, ChainOk, Mirrored;
      EvolvesSelf(fs.g, fs.View(), chain);
      if sect != sect1 {
        Flush();
        ghost var v, st := fs.View(), State();
        LoadedFits(fs.g, v, fs.winsect, st);
        fs.DiskRead(sect1, buf, 0, 1);
        sect := sect1;
        LoadedAfter(fs.g, v, fs.winsect, st, sect1, buf[..]);
        assert State() == st.(sect := sect1, buf := buf[..]);
      }
    }

    /** f_read's transfer out of the sector buffer, up to the end of the sector. */
    method ReadBuffered(rbuff: array<byte>, ofs: nat, btr: nat) returns (n: nat)
      requires fs.Valid() && buf.Length == 512 && buf != fs.win && rbuff != buf && rbuff != fs.win
      requires Loaded(fs.g, fs.View(), fs.winsect, State())
      requires 0 < btr && ofs + btr <= rbuff.Length && fptr + btr <= objsize
      modifies rbuff, this`fptr
      ensures Valid() && 0 < n <= btr && fptr == old(fptr) + n
      ensures Data() == old(Content(fs.g, fs.View(), State()))
      ensures rbuff[ofs..ofs + n] == Data()[old(fptr)..fptr]
      ensures rbuff[..ofs] == old(rbuff[..ofs])
    {
      hide Evolves, Entries, Content, Row, Col, ChainOk, BufferOk, Positioned;
      n := 512 - fptr % 512;
      if n > btr {
        n := btr;
      }
      ghost var v, st := fs.View(), State();
      ReadBuffer(fs.g, v, fs.winsect, st, n);
      var o := fptr % 512;
      forall i | 0 <= i < n {
        rbuff[ofs + i] := buf[o + i];
      }
      assert rbuff[ofs..ofs + n] == st.buf[o..o + n];
      fptr := fptr + n;
      assert State() == st.(fptr := st.fptr + n);
    }

    /** One round of f_read's loop from a sector boundary, once the cluster of fptr is at hand. */
    method ReadAtBoundary(rbuff: array<byte>, ofs: nat, btr: nat) returns (rcnt: nat)
      requires Core() && Located(fs.g, State()) && fptr % 512 == 0
      requires rbuff != buf && rbuff != fs.win && 0 < btr && ofs + btr <= rbuff.Length && fptr + btr <= objsize
      modifies fs`medium, buf, rbuff, this`dirty, this`sect, this`fptr
      ensures Valid() && 0 < rcnt <= btr && fptr == old(fptr) + rcnt && Data() == old(Data())
      ensures rbuff[ofs..ofs + rcnt] == Data()[old(fptr)..fptr]
      ensures rbuff[..ofs] == old(rbuff[..ofs])
      ensures Evolves(fs.g, old(fs.View()), chain, fs.View(), chain) && fs.Fat() == old(fs.Fat())
      ensures old(Mirrored(fs.g, fs.medium)) ==> Mirrored(fs.g, fs.medium)
      ensures old(OwnSector(fs.g, chain, sect)) ==> OwnSector(fs.g, chain, sect)
    {
      hide Evolves, Entries, Content, Row, Col, ChainOk, BufferOk, Positioned, Mirrored, Aligned, Overlay;
      EvolvesSelf(fs.g, fs.View(), chain);
      ChainClustersOk(fs.g, fs.View(), fs.winsect, State());
      SectorOffset(fs.g, fs.View(), State());
      var csect := fptr / 512 % fs.g.csize;
      var sect1 := Clst2Sect(fs, clust);
      sect1 := sect1 + csect;
      var cc := btr / 512;
      if cc > 0 {
        if csect + cc > fs.g.csize {
          cc := fs.g.csize - csect;
        }
        AlignedNow(fs.g, fs.View(), fs.winsect, State(), cc);
        ReadDirect(rbuff, ofs, sect1, cc);
        rcnt := 512 * cc;
      } else {
        LbaInside(fs.g, |fs.View()|, chain, fptr / 512);
        LoadBuffer(sect1);
        rcnt := ReadBuffered(rbuff, ofs, btr);
      }
    }

    /** One round of f_read's loop. */
    method ReadRound(rbuff: array<byte>, ofs: nat, btr: nat) returns (rcnt: nat)
      requires Valid()
      requires rbuff != buf && rbuff != fs.win && 0 < btr && ofs + btr <= rbuff.Length && fptr + btr <= objsize
      modifies this`dirty, this`fptr, this`clust, this`sect, buf, rbuff, fs`medium, fs`wflag, fs`winsect, fs.win
      ensures Valid() && 0 < rcnt <= btr && fptr == old(fptr) + rcnt && Data() == old(Data())
      ensures rbuff[ofs..ofs + rcnt] == Data()[old(fptr)..fptr]
      ensures rbuff[..ofs] == old(rbuff[..ofs])
      ensures Evolves(fs.g, old(fs.View()), chain, fs.View(), chain) && fs.Fat() == old(fs.Fat())
      ensures old(Mirrored(fs.g, fs.medium)) ==> Mirrored(fs.g, fs.medium)
      ensures fs.winsect == old(fs.winsect) || fs.g.InFat1(fs.winsect)
      ensures old(OwnSector(fs.g, chain, sect)) ==> OwnSector(fs.g, chain, sect)
    {
      hide Evolves, Entries, Content, Row, Col, ChainOk, BufferOk, Mirrored;
      ghost var v0 := fs.View();
      EvolvesSelf(fs.g, v0, chain);
      if fptr % 512 == 0 {
        CsectFormula(fs.g, fptr);
        if fptr / 512 % fs.g.csize == 0 {
          EnterForRead();
        } else {
          LocatedInside(fs.g, State());
        }
        ghost var v1 := fs.View();
        rcnt := ReadAtBoundary(rbuff, ofs, btr);
        ChainClustersOk(fs.g, fs.View(), fs.winsect, State());
        EvolvesTrans(fs.g, v0, chain, v1, chain, fs.View(), chain);
      } else {
        LoadedInside(fs.g, v0, fs.winsect, State());
        rcnt := ReadBuffered(rbuff, ofs, btr);
      }
    }

    /** f_read: the next bytes of the contents, as many as asked for or left. */
    method Read(rbuff: array<byte>, btr0: nat) returns (res: FResult, br: nat)
      requires Valid() && rbuff != buf && rbuff != fs.win && btr0 <= rbuff.Length
      modifies this`dirty, this`fptr, this`clust, this`sect, buf, rbuff, fs`medium, fs`wflag, fs`winsect, fs.win
      ensures Valid() && br <= btr0 && Data() == old(Data())
      ensures res == if old(err) != FR_OK then old(err) else if canRead then FR_OK else FR_DENIED
      ensures br == if res != FR_OK then 0 else if btr0 > objsize - old(fptr) then objsize - old(fptr) else btr0
      ensures fptr == old(fptr) + br && rbuff[..br] == Data()[old(fptr)..fptr]
      ensures Evolves(fs.g, old(fs.View()), chain, fs.View(), chain) && fs.Fat() == old(fs.Fat())
      ensures old(Mirrored(fs.g, fs.medium)) ==> Mirrored(fs.g, fs.medium)
      ensures fs.winsect == old(fs.winsect) || fs.g.InFat1(fs.winsect)
      ensures old(OwnSector(fs.g, chain, sect)) ==> OwnSector(fs.g, chain, sect)
    {
      hide Evolves, Entries, Content, Ok, Positioned, Mirrored;
      ghost var v0, ch0, data0, p0 := fs.View(), chain, Data(), fptr;
      StateBounds();
      EvolvesSelf(fs.g, v0, ch0);
      res, br := err, 0;
      if res != FR_OK {
        return;
      }
      if !canRead {
        return FR_DENIED, 0;
      }
      var btr := btr0;
      var remain := objsize - fptr;
      if btr > remain {
        btr := remain;
      }
      ghost var total := btr;
      while btr > 0
        invariant fs.winsect == old(fs.winsect) || fs.g.InFat1(fs.winsect)
        invariant old(OwnSector(fs.g, chain, sect)) ==> OwnSector(fs.g, chain, sect)
        invariant Valid() && fptr == p0 + br && 0 <= btr && br + btr == total && p0 + total <= objsize == |data0|
        invariant Data() == data0 && rbuff[..br] == data0[p0..p0 + br]
        invariant Evolves(fs.g, v0, ch0, fs.View(), chain) && fs.Fat() == old(fs.Fat())
        invariant old(Mirrored(fs.g, fs.medium)) ==> Mirrored(fs.g, fs.medium)
      {
        ghost var v1, n, got := fs.View(), br, rbuff[..br];
        var rcnt := ReadRound(rbuff, br, btr);
        StateBounds();
        EvolvesTrans(fs.g, v0, ch0, v1, chain, fs.View(), chain);
        btr := btr - rcnt;
        br := br + rcnt;
        assert rbuff[..br] == got + rbuff[n..n + rcnt];
        TwoSlices(data0, p0, p0 + n, p0 + br);
      }
    }

    // ---------- seeking ----------

    /** The step of f_lseek to the next cluster: create_chain when writing, get_fat otherwise. */
    method NextOnChain(clst: nat, ghost i: nat) returns (r: nat)
      requires Core() && i < |chain| && clst == chain[i] && (!canWrite ==> i + 1 < |chain|)
      modifies this`sclust, this`chain, fs, fs.win
      ensures fs.Noted()
      ensures Core() && Data() == old(Data())
      ensures Evolves(fs.g, old(fs.View()), old(chain), fs.View(), chain)
      ensures old(Mirrored(fs.g, fs.medium)) ==> Mirrored(fs.g, fs.medium)
      ensures old(FreeCountOk(fs)) ==> FreeCountOk(fs)
      ensures r == 0 ==> canWrite && Full(fs) && i + 1 == |chain| && State() == old(State())
      ensures r == 1 ==> HasInvalid(fs.Fat())
      ensures r >= 2 ==> i + 1 < |chain| && r == chain[i + 1] && fs.g.IsCluster(r)
      ensures fs.winsect == old(fs.winsect) || fs.g.InFat1(fs.winsect)
    {
      hide Evolves, Entries, Content, Row, Col, ChainOk, BufferOk, Mirrored, Full, HasInvalid;
      ghost var v, win, st := fs.View(), fs.winsect, State();
      if canWrite {
        if i + 1 < |chain| {
          LinkOnChain(fs.g, v, win, st, i);
        }
        r := Stretch(clst, i);
        if r >= 2 {
          OnChain(fs.g, fs.View(), fs.winsect, State(), i + 1);
        }
      } else {
        LinkOnChain(fs.g, v, win, st, i);
        r := fs.GetFat(clst);
        WindowMoved(fs.g, v, win, st, fs.View(), fs.winsect);
      }
    }

    /** One round of f_lseek's walk: from the i-th cluster, at position f, to the next one. */
    method WalkStep(f: nat, ofs: nat, ghost i: nat) returns (clst: nat)
      requires Core() && AtCluster(fs.g, State(), f, clust, i) && 512 * fs.g.csize < ofs
      requires f + ofs < 0x1_0000_0000 && (!canWrite ==> f + ofs <= objsize)
      modifies this`sclust, this`chain, this`clust, fs, fs.win
      ensures fs.Noted()
      ensures Core() && Data() == old(Data())
      ensures Evolves(fs.g, old(fs.View()), old(chain), fs.View(), chain)
      ensures old(Mirrored(fs.g, fs.medium)) ==> Mirrored(fs.g, fs.medium)
      ensures old(FreeCountOk(fs)) ==> FreeCountOk(fs)
      ensures clst == 0 ==>
        canWrite && Full(fs) && AtCluster(fs.g, State(), f, clust, i) && AtCapacity(fs.g, chain, f + 512 * fs.g.csize)
      ensures clst == 1 ==> HasInvalid(fs.Fat())
      ensures clst >= 2 ==> AtCluster(fs.g, State(), f + 512 * fs.g.csize, clust, i + 1)
      ensures fs.winsect == old(fs.winsect) || fs.g.InFat1(fs.winsect)
    {
      hide Evolves, Entries, Content, Row, Col, ChainOk, BufferOk, Mirrored, Full, HasInvalid, AtCluster, AtCapacity;
      hide FreeCountOk, FATFS.View, FATFS.Fat;
      ghost var st1 := State();
      WalkIndex(fs.g, fs.View(), fs.winsect, st1, f, clust, i, ofs);
      clst := NextOnChain(clust, i);
      StateBounds();
      if clst == 0 {
        StoppedAtCapacity(fs.g, State(), f, clust, i);
      } else if clst >= 2 {
        ghost var st2 := State();
        NextAtCluster(fs.g, st1, f, clust, i, st2.(clust := clst), clst);
        OkClust(fs.g, fs.View(), fs.winsect, st2, clst);
        clust := clst;
        assert State() == st2.(clust := clst);
      }
    }

    /**
     f_lseek's walk from the i-th cluster (at position f) towards the target f + ofs.  It ends in the cluster
     of the target, or where the volume is full, or on an insane allocation table (r == 1).
     */
    method Walk(start: nat, ghost i0: nat, f0: nat, ofs0: nat) returns (r: nat, f: nat, ofs: nat, ghost i: nat)
      requires Core() && AtCluster(fs.g, State(), f0, start, i0) && clust == start
      requires 0 < ofs0 && f0 + ofs0 < 0x1_0000_0000 && (!canWrite ==> f0 + ofs0 <= objsize)
      modifies this`sclust, this`chain, this`clust, fs, fs.win
      ensures fs.Noted()
      ensures Core() && Data() == old(Data())
      ensures Evolves(fs.g, old(fs.View()), old(chain), fs.View(), chain)
      ensures old(Mirrored(fs.g, fs.medium)) ==> Mirrored(fs.g, fs.medium)
      ensures old(FreeCountOk(fs)) ==> FreeCountOk(fs)
      ensures r == 1 ==> HasInvalid(fs.Fat())
      ensures r != 1 ==> AtCluster(fs.g, State(), f, clust, i) && 0 < ofs <= 512 * fs.g.csize
      ensures r == 0 ==> canWrite && Full(fs) && ofs == 512 * fs.g.csize
      ensures r == 0 ==> f + ofs < f0 + ofs0 && AtCapacity(fs.g, chain, f + ofs)
      ensures r >= 2 ==> f + ofs == f0 + ofs0
      ensures fs.winsect == old(fs.winsect) || fs.g.InFat1(fs.winsect)
    {
      hide Evolves, Entries, Content, Row, Col, ChainOk, BufferOk, Mirrored, Full, HasInvalid, AtCluster, AtCapacity;
      hide FreeCountOk, FATFS.View, FATFS.Fat, Ok;
      ghost var v0, ch0 := fs.View(), chain;
      var bcs := 512 * fs.g.csize;
      r, f, ofs, i := 2, f0, ofs0, i0;
      EvolvesSelf(fs.g, v0, ch0);
      while ofs > bcs
        invariant fs.Noted()
        invariant fs.winsect == old(fs.winsect) || fs.g.InFat1(fs.winsect)
        invariant Core() && Data() == old(Data())
        invariant AtCluster(fs.g, State(), f, clust, i) && 0 < ofs && f + ofs == f0 + ofs0
        invariant Evolves(fs.g, v0, ch0, fs.View(), chain)
        invariant old(Mirrored(fs.g, fs.medium)) ==> Mirrored(fs.g, fs.medium)
        invariant old(FreeCountOk(fs)) ==> FreeCountOk(fs)
      {
        ghost var v1, ch1 := fs.View(), chain;
        var clst := WalkStep(f, ofs, i);
        StateBounds();
        EvolvesTrans(fs.g, v0, ch0, v1, ch1, fs.View(), chain);
        if clst == 0 {
          return 0, f, bcs, i;
        }
        if clst == 1 {
          return 1, f, ofs, i;
        }
        ofs, f, i := ofs - bcs, f + bcs, i + 1;
      }
    }

    /** The end of f_lseek: sets position and size, and fills the sector buffer if it stops inside a sector. */
    method SetPos(pos: nat, nsect: nat, ghost f: nat, ghost ofs: nat, ghost i: nat)
      requires Core() && WalkDone(fs.g, State(), pos, nsect, f, ofs, i) && pos < 0x1_0000_0000
      modifies this`fptr, this`objsize, this`modified, this`dirty, this`sect, buf, fs`medium
      ensures Valid() && fptr == pos && objsize == Max(old(objsize), pos)
      ensures Data()[..old(objsize)] == old(Data())
      ensures modified == (old(modified) || pos > old(objsize))
      ensures Evolves(fs.g, old(fs.View()), chain, fs.View(), chain) && fs.Fat() == old(fs.Fat())
      ensures old(Mirrored(fs.g, fs.medium)) ==> Mirrored(fs.g, fs.medium)
      ensures pos % 512 == 0 ==> sect == old(sect)
      ensures old(OwnSector(fs.g, chain, sect)) ==> OwnSector(fs.g, chain, sect)
    {
      hide Evolves, Entries, Content, Row, Col, ChainOk, Mirrored, WalkDone;
      ghost var st := State();
      EvolvesSelf(fs.g, fs.View(), chain);
      SetPosition(fs.g, fs.View(), fs.winsect, st, pos, nsect, f, ofs, i);
      fptr := pos;
      if fptr > objsize {
        objsize := fptr;
        modified := true;
      }
      assert State() == Sought(st, pos);
      if fptr % 512 != 0 && nsect != sect {
        Flush();
        ghost var v, st1 := fs.View(), State();
        LoadedFits(fs.g, v, fs.winsect, st1);
        fs.DiskRead(nsect, buf, 0, 1);
        sect := nsect;
        LoadedAfter(fs.g, v, fs.winsect, st1, nsect, buf[..]);
        assert State() == st1.(sect := nsect, buf := buf[..]);
        LoadedPositioned(fs.g, v, fs.winsect, State());
        StateBounds();
        LbaInside(fs.g, |v|, chain, fptr / 512);
      }
    }

    /**
     Where f_lseek starts its walk to ofs > 0: the current cluster if the target is not before it, else the
     first one, which is created if there is none (0: the volume is full, 1: the table is insane).
     */
    method FindStart(ofs: nat) returns (clst: nat, pos: nat, ghost i: nat)
      requires Valid() && ofs > 0 && (!canWrite ==> ofs <= objsize)
      modifies this`sclust, this`chain, this`clust, fs, fs.win
      ensures fs.Noted()
      ensures Core() && Data() == old(Data())
      ensures Evolves(fs.g, old(fs.View()), old(chain), fs.View(), chain)
      ensures old(Mirrored(fs.g, fs.medium)) ==> Mirrored(fs.g, fs.medium)
      ensures old(FreeCountOk(fs)) ==> FreeCountOk(fs)
      ensures clst == 0 ==> canWrite && Full(fs) && chain == []
      ensures clst == 1 ==> HasInvalid(fs.Fat())
      ensures clst >= 2 ==> pos < ofs && AtCluster(fs.g, State(), pos, clst, i) && clust == clst
      ensures fs.winsect == old(fs.winsect) || fs.g.InFat1(fs.winsect)
    {
      hide Evolves, Entries, Content, Row, Col, ChainOk, BufferOk, Mirrored, Full, HasInvalid, AtCluster, StartOf;
      ghost var v := fs.View();
      EvolvesSelf(fs.g, v, chain);
      var bcs := 512 * fs.g.csize;
      i, pos := 0, 0;
      if fptr > 0 && (ofs - 1) / bcs >= (fptr - 1) / bcs {
        i := StartHere(fs.g, v, fs.winsect, State());
        StartBefore(fs.g.csize, fptr - 1, ofs - 1);
        pos := StartOf(fs.g.csize, fptr - 1);
        clst := clust;
        StartIsCluster(fs.g, v, fs.winsect, State(), pos, i);
      } else {
        clst := sclust;
        FirstCluster(fs.g, v, fs.winsect, State());
        if clst == 0 {
          clst := Stretch(0, -1);
          if clst < 2 {
            return;
          }
        }
        ghost var st := State();
        StartAtFirst(fs.g, st, clst);
        OkClust(fs.g, fs.View(), fs.winsect, st, clst);
        clust := clst;
        assert State() == st.(clust := clst);
      }
    }

    /** The part of f_lseek between the clipping of the offset and the setting of the position. */
    method SeekChain(target: nat) returns (clst: nat, pos: nat, nsect: nat, ghost f: nat, ghost ofs: nat, ghost i: nat)
      requires Valid() && 0 < target < 0x1_0000_0000 && (!canWrite ==> target <= objsize)
      modifies this`sclust, this`chain, this`clust, fs, fs.win
      ensures fs.Noted()
      ensures Core() && Data() == old(Data())
      ensures Evolves(fs.g, old(fs.View()), old(chain), fs.View(), chain)
      ensures old(Mirrored(fs.g, fs.medium)) ==> Mirrored(fs.g, fs.medium)
      ensures old(FreeCountOk(fs)) ==> FreeCountOk(fs)
      ensures clst == 1 ==> HasInvalid(fs.Fat())
      ensures clst != 1 ==> WalkDone(fs.g, State(), pos, nsect, f, ofs, i)
      ensures clst == 0 ==> canWrite && Full(fs) && pos < target && AtCapacity(fs.g, chain, pos)
      ensures clst >= 2 ==> pos == target
      ensures fs.winsect == old(fs.winsect) || fs.g.InFat1(fs.winsect)
    {
      hide Evolves, Entries, Content, Row, Col, ChainOk, BufferOk, Mirrored, Full, HasInvalid, AtCluster;
      hide StartOf, Positioned;
      ghost var v0, ch0 := fs.View(), chain;
      f, ofs, i, nsect := 0, 0, 0, 0;
      clst, pos, i := FindStart(target);
      if clst < 2 {
        CapacityZero(fs.g);
        pos := 0;
        return;
      }
      ghost var v1, ch1 := fs.View(), chain;
      var f', ofs';
      clst, f', ofs', i := Walk(clst, i, pos, target - pos);
      f, ofs := f', ofs';
      StateBounds();
      EvolvesTrans(fs.g, v0, ch0, v1, ch1, fs.View(), chain);
      if clst == 1 {
        return;
      }
      pos := f' + ofs';
      StartIsCluster(fs.g, fs.View(), fs.winsect, State(), f, i);
      if ofs' % 512 != 0 {
        nsect := Clst2Sect(fs, clust);
        nsect := nsect + ofs' / 512;
      }
    }

    /**
     f_lseek: moves the position; when writing it may lie behind the end, and then the file grows up to it
     or, if the volume fills up, as far as its clusters go.
     */
    method Lseek(ofs0: nat) returns (res: FResult)
      requires Valid() && ofs0 < 0x1_0000_0000
      modifies this, buf, fs, fs.win
      ensures fs.Noted()
      ensures fs.Valid()
      ensures old(err) != FR_OK ==> res == old(err) && Valid() && fptr == old(fptr) && Data() == old(Data())
      ensures old(err) == FR_OK && res != FR_OK ==> res == FR_INT_ERR && err == res && HasInvalid(fs.Fat())
      ensures old(err) == FR_OK && Chains.Forest(old(fs.Fat())) ==> res == FR_OK
      ensures old(err) == FR_OK && res == FR_OK ==>
        && Valid() && err == FR_OK && objsize == Max(old(objsize), fptr) && Data()[..old(objsize)] == old(Data())
        && modified == (old(modified) || objsize > old(objsize))
        && var target := if ofs0 > old(objsize) && !canWrite then old(objsize) else ofs0;
          fptr == target || (canWrite && fptr < target && Full(fs) && AtCapacity(fs.g, chain, fptr)
                             && (old(FreeCountOk(fs)) ==> NoneFree(fs.Fat())))
      ensures Evolves(fs.g, old(fs.View()), old(chain), fs.View(), chain)
      ensures old(Mirrored(fs.g, fs.medium)) ==> Mirrored(fs.g, fs.medium)
      ensures old(FreeCountOk(fs)) ==> FreeCountOk(fs)
      ensures fs.winsect == old(fs.winsect) || fs.g.InFat1(fs.winsect)
      ensures old(OwnSector(fs.g, chain, sect)) ==> OwnSector(fs.g, chain, sect)
      ensures fptr % 512 == 0 ==> sect == old(sect)
    {
      hide Evolves, Entries, Content, Row, Col, Mirrored, HasInvalid, NoneFree, WalkDone, AtCapacity;
      hide Positioned, Ok, Chains.Forest;
      ghost var v0, ch0 := fs.View(), chain;
      EvolvesSelf(fs.g, v0, ch0);
      StateBounds();
      res := err;
      if res != FR_OK {
        return;
      }
      var ofs := ofs0;
      if ofs > objsize && !canWrite {
        ofs := objsize;
      }
      var pos, nsect := 0, 0;
      ghost var f, o, i := 0, 0, 0;
      if ofs > 0 {
        var clst;
        clst, pos, nsect, f, o, i := SeekChain(ofs);
        OwnGrows(fs.g, v0, ch0, fs.View(), chain, sect);
        if clst == 1 {
          SoundTable(fs.g, v0, ch0, fs.View(), chain);
          fptr := pos;
          err := FR_INT_ERR;
          return FR_INT_ERR;
        }
      } else {
        NoWalk(fs.g, State());
      }
      ghost var v1, ch1 := fs.View(), chain;
      SetPos(pos, nsect, f, o, i);
      StateBounds();
      EvolvesTrans(fs.g, v0, ch0, v1, ch1, fs.View(), chain);
      NoRoom(fs);
    }

    // ---------- truncating ----------

    /** f_truncate's removal of the clusters behind the position. */
    method CutChain()
      requires Valid() && fptr < objsize
      modifies fs, fs.win
      ensures fs.Noted()
      ensures fs.Valid() && |fs.medium| == old(|fs.medium|) && KeepsData(fs.g, old(fs.View()), fs.View())
      ensures old(Mirrored(fs.g, fs.medium)) ==> Mirrored(fs.g, fs.medium)
      ensures old(FreeCountOk(fs)) ==> FreeCountOk(fs)
      ensures var k := KeptClusters(fs.g, State());
        && chain != [] && k <= |chain| && InBounds(old(fs.Fat()), chain)
        && fs.Fat() == CutTo(old(fs.Fat()), chain, k, fs.g.EndMark())
      ensures fs.winsect == old(fs.winsect) || fs.g.InFat1(fs.winsect)
    {
      hide Evolves, Entries, Content, Row, Col, ChainOk, BufferOk, Mirrored, Positioned, CutTo, KeepsData, FATFS.View;
      ghost var v, k := fs.View(), KeptClusters(fs.g, State());
      RemoveForTruncate(fs.g, v, fs.winsect, State(), k);
      var res := FR_OK;
      if fptr == 0 {
        res := RemoveChain(fs, sclust, 0);
      } else {
        var ncl := fs.GetFat(clust);
        ghost var v1 := fs.View();
        SameKeepsData(fs.g, v, v1);
        if ncl == 1 {
          assert false;
        }
        if ncl < fs.g.nFatent {
          res := RemoveChain(fs, ncl, clust);
          KeepsDataTrans(fs.g, v, v1, fs.View());
        } else {
          CutToAll(fs.Fat(), chain, fs.g.EndMark());
        }
      }
    }

    /** The new length, and the buffer written back. */
    method Shorten(ghost k: nat)
      requires fs.Valid() && buf.Length == 512 && k <= |chain| && (k == 0 <==> fptr == 0)
      requires dirty ==> fs.g.database <= sect < |fs.medium| && sect != fs.winsect
      modifies fs`medium, this`sclust, this`objsize, this`modified, this`chain, this`dirty
      ensures fs.Valid() && modified && State() == Truncated(old(State()), k)
      ensures fs.View() == Overlay(old(fs.View()), old(State())) && fs.Fat() == old(fs.Fat())
      ensures old(Mirrored(fs.g, fs.medium)) ==> Mirrored(fs.g, fs.medium)
    {
      hide Mirrored, FATFS.View;
      if fptr == 0 {
        sclust := 0;
      }
      objsize := fptr;
      modified := true;
      chain := chain[..k];
      if dirty {
        WriteBack();
      }
    }

    /** The part of f_truncate that cuts a file which is longer than its position. */
    method CutHere()
      requires Valid() && fptr < objsize
      modifies fs, fs.win, this`sclust, this`objsize, this`modified, this`chain, this`dirty
      ensures fs.Noted()
      ensures Valid() && modified && Data() == old(Data())[..fptr]
      ensures Confined(fs.g, old(fs.View()), fs.View(), old(chain))
      ensures |chain| == KeptClusters(fs.g, old(State())) <= |old(chain)| && chain <= old(chain)
      ensures InBounds(old(fs.Fat()), old(chain))
      ensures fs.Fat() == CutTo(old(fs.Fat()), old(chain), |chain|, fs.g.EndMark())
      ensures old(Mirrored(fs.g, fs.medium)) ==> Mirrored(fs.g, fs.medium)
      ensures old(FreeCountOk(fs)) ==> FreeCountOk(fs)
      ensures fs.winsect == old(fs.winsect) || fs.g.InFat1(fs.winsect)
      ensures Chains.Forest(old(fs.Fat())) && (fptr == 0 ==> NoLinkTo(old(fs.Fat()), old(sclust))) ==>
        Chains.Forest(fs.Fat())
    {
      hide Evolves, Entries, Content, Row, Col, ChainOk, BufferOk, Mirrored, Positioned, CutTo, KeepsData;
      hide Confined, InBounds, FATFS.View;
      ghost var v0, win0, st0 := fs.View(), fs.winsect, State();
      ghost var k := KeptClusters(fs.g, st0);
      CutChain();
      TruncateOk(fs.g, v0, win0, st0, fs.View(), fs.winsect, k);
      TruncateForest(fs.g, v0, win0, st0, k);
      if dirty {
        DirtySector(fs.g, v0, win0, st0, fs.winsect);
      }
      Shorten(k);
    }

    /** f_truncate: cuts the file at its position; exactly the bytes before it are left. */
    method Truncate() returns (res: FResult)
      requires Valid()
      modifies this, buf, fs, fs.win
      ensures fs.Noted()
      ensures Valid() && fptr == old(fptr)
      ensures res == if old(err) != FR_OK then old(err) else if canWrite then FR_OK else FR_DENIED
      ensures Data() == if res == FR_OK then old(Data())[..fptr] else old(Data())
      ensures modified == (old(modified) || (res == FR_OK && fptr < old(objsize)))
      ensures Confined(fs.g, old(fs.View()), fs.View(), old(chain))
      ensures if res == FR_OK && fptr < old(objsize) then
                && |chain| == KeptClusters(fs.g, old(State())) <= |old(chain)| && chain <= old(chain)
                && InBounds(old(fs.Fat()), old(chain))
                && fs.Fat() == CutTo(old(fs.Fat()), old(chain), |chain|, fs.g.EndMark())
              else chain == old(chain) && fs.Fat() == old(fs.Fat())
      ensures old(Mirrored(fs.g, fs.medium)) ==> Mirrored(fs.g, fs.medium)
      ensures old(FreeCountOk(fs)) ==> FreeCountOk(fs)
      ensures fs.winsect == old(fs.winsect) || fs.g.InFat1(fs.winsect)
      ensures Chains.Forest(old(fs.Fat())) && (fptr == 0 ==> NoLinkTo(old(fs.Fat()), old(sclust))) ==>
        Chains.Forest(fs.Fat())
      ensures sect == old(sect) && err == old(err)
    {
      hide Evolves, Entries, Content, Row, Col, ChainOk, BufferOk, Mirrored, Positioned, CutTo, KeepsData, FATFS.View;
      StateBounds();
      assert Data()[..objsize] == Data();
      res := err;
      if res != FR_OK {
        return;
      }
      if !canWrite {
        return FR_DENIED;
      }
      if fptr < objsize {
        CutHere();
      }
    }
  }

  /**
   Two open files of a volume: their clusters and their buffers are
   apart, and each buffer holds a sector of its file.
   */
  ghost predicate Apart(f: FIL, h: FIL)
    reads f, h
  {
    && f != h && f.fs == h.fs && f.buf != h.buf && (forall c | c in h.chain :: c !in f.chain)
    && OwnSector(f.fs.g, f.chain, f.sect) && OwnSector(h.fs.g, h.chain, h.sect)
  }

  /** Writing to one open file leaves another as it is, with its unwritten bytes, and the two apart. */
  method WriteBeside(f: FIL, h: FIL, wbuff: array<byte>, btw: nat) returns (res: FResult, bw: nat)
    requires f.Valid() && h.Valid() && Apart(f, h) && h.buf != f.fs.win
    requires wbuff != f.buf && wbuff != f.fs.win && wbuff != h.buf && btw <= wbuff.Length && btw < 0x1_0000_0000
    modifies f, f.buf, f.fs, f.fs.win
    ensures f.fs.Noted()
    ensures f.Valid() && bw <= btw && f.Data() == Overwrite(old(f.Data()), old(f.fptr), wbuff[..bw])
    ensures h.Valid() && h.Data() == old(h.Data()) && Apart(f, h)
  {
    hide Evolves, Content, Entries, Ok, Positioned;
    ghost var g, v0, win0, ch0, st := f.fs.g, f.fs.View(), f.fs.winsect, f.chain, h.State();
    res, bw := f.Write(wbuff, btw);
    f.StateBounds();
    assert h.State() == st;
    OtherObject(g, v0, win0, ch0, f.fs.View(), f.fs.winsect, f.chain, st);
    ObjectApart(g, v0, win0, ch0, f.fs.View(), f.chain, st);
  }

  lemma ObjectApart(g: Geometry, v0: seq<Sector>, win0: nat, ch0: seq<nat>, v: seq<Sector>, ch: seq<nat>, st: FileState)
    requires g.Good(|v0|) && Evolves(g, v0, ch0, v, ch) && Ok(g, v0, win0, st) && forall c | c in st.chain :: c !in ch0
    ensures forall c | c in st.chain :: c !in ch
  {
    hide BufferOk, Evolves;
    if st.chain != [] {
      StaysApart(g, v0, ch0, v, ch, st.chain);
    }
  }

  /**
   A file read from its start, sought back and cut: the buffer is left
   with a sector that is not the file's any more.
   */
  method ReadSeekTruncate(f: FIL, rbuff: array<byte>)
    requires f.Valid() && f.err == FR_OK && f.canRead && f.canWrite && f.fptr == 0 && f.objsize > 0
    requires Chains.Forest(f.fs.Fat()) && rbuff.Length >= 1 && rbuff != f.buf && rbuff != f.fs.win
    modifies f, f.buf, f.fs, f.fs.win, rbuff
    ensures f.fs.Noted()
    ensures f.Valid() && f.Data() == [] && f.sect != 0 && !OwnSector(f.fs.g, f.chain, f.sect)
  {
    hide Evolves, Content, Entries, Ok, Row, Chains.Forest;
    var res, br := f.Read(rbuff, 1);
    f.StateBounds();
    LbaInside(f.fs.g, |f.fs.medium|, f.chain, 0);
    res := f.Lseek(0);
    res := f.Truncate();
  }
}
