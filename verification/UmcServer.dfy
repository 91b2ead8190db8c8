/** The memory unit's operations as loops over its frame list, page tables and TLB, updated in
    place.  Each leaves the tables as the functions of UmcTables say. */
module UmcServer {
  import opened UmcClock
  import opened UmcTables
  import opened UmcSafety
  import opened UmcEffects

  class Umc {
    const marcosPorProc: nat
    const algoritmo: Algorithm
    const frames: array<Frame>
    const tlb: array<TlbEntry>
    var procs: seq<Proc>
    var accesos: nat

    ghost function View(): Tables
      reads this, frames, tlb
    {
      Tables(frames[..], procs, tlb[..], accesos)
    }

    ghost predicate Sound()
      reads this, frames, tlb
    {
      frames as object != tlb && QuotaOk(marcosPorProc) && Inv(View(), marcosPorProc)
    }

    constructor (cantidadDeFrames: nat, entradas: nat, marcos: nat, algoritmo: Algorithm)
      requires QuotaOk(marcos)
      ensures Sound() && View() == Initial(cantidadDeFrames, entradas)
      ensures fresh(frames) && fresh(tlb) && marcosPorProc == marcos && this.algoritmo == algoritmo
    {
      marcosPorProc, this.algoritmo := marcos, algoritmo;
      frames := new Frame[cantidadDeFrames](_ => Frame(0, false, false));
      tlb := new TlbEntry[entradas](_ => TlbEntry(0, 0, 0, 0));
      procs, accesos := [], 0;
      new;
      ghost var t := Initial(cantidadDeFrames, entradas);
      assert frames[..] == t.frames && tlb[..] == t.tlb;
    }

    // -------------------------------------------------------------- searches

    method EncontrarPosicionEnProcesos(pid: nat) returns (r: int)
      ensures r == if FindProc(procs, pid, 0) == |procs| then -1 else FindProc(procs, pid, 0)
    {
      var i, encontrado := 0, false;
      while i < |procs| && !encontrado
        invariant 0 <= i <= |procs| && FindProc(procs, pid, 0) == FindProc(procs, pid, i)
        invariant encontrado ==> i < |procs| && procs[i].pid == pid
        decreases |procs| - i, !encontrado
      {
        if procs[i].pid == pid {
          encontrado := true;
        } else {
          i := i + 1;
        }
      }
      r := if encontrado then i else -1;
    }

    method BuscarEnListaProcesos(pid: nat, numPagina: nat) returns (r: int)
      requires Sound()
      ensures r == Lookup(procs, pid, numPagina)
    {
      var i, j, acierto, encontroPagina, nroframe := 0, 0, false, false, 0;
      ghost var at := FindProc(procs, pid, 0);
      while i < |procs| && !acierto
        invariant i <= |procs| && (acierto ==> encontroPagina && nroframe == Lookup(procs, pid, numPagina))
        invariant !acierto ==> !encontroPagina && (i <= at ==> j == 0)
        invariant !acierto && i > at ==> Lookup(procs, pid, numPagina) == OVERFLOW
      {
        if procs[i].pid == pid {
          FindProcAt(procs, i);
          while j < |procs[i].pages| && !acierto
            invariant j <= |procs[i].pages|
            invariant acierto ==> encontroPagina && nroframe == Lookup(procs, pid, numPagina)
            invariant !acierto ==> !encontroPagina
            invariant !acierto ==> FindPage(procs[i].pages, numPagina, 0) == FindPage(procs[i].pages, numPagina, j)
          {
            var pagina := procs[i].pages[j];
            if pagina.nro == numPagina {
              encontroPagina := true;
              if pagina.status.M? {
                nroframe := pagina.frame;
                acierto := true;
              } else {
                return NO_EN_MEMORIA;
              }
            }
            j := j + 1;
          }
        }
        i := i + 1;
      }
      r := if !encontroPagina then OVERFLOW else nroframe;
    }

    method BuscarEnTLB(pid: nat, numPag: nat) returns (nroframe: int)
      ensures nroframe == TlbLookup(tlb[..], pid, numPag)
    {
      nroframe := -1;
      var i, acierto := 0, false;
      while i < tlb.Length && !acierto
        invariant i <= tlb.Length
        invariant acierto ==> nroframe == TlbLookup(tlb[..], pid, numPag)
        invariant !acierto ==> nroframe == -1 && FindTlb(tlb[..], pid, numPag, 0) == FindTlb(tlb[..], pid, numPag, i)
      {
        if tlb[i].pid == pid && tlb[i].nro == numPag {
          nroframe := tlb[i].frame;
          acierto := true;
        }
        i := i + 1;
      }
    }

    // -------------------------------------------------------------- the TLB

    /** The entry to give up when none is free. */
    method BuscarEntradaMasAntigua() returns (j: nat)
      requires tlb.Length > 0
      ensures j == Oldest(tlb[..], 0, 0, accesos)
    {
      var i, ultimo := 0, accesos;
      j := 0;
      while i < tlb.Length
        invariant i <= tlb.Length && j < tlb.Length
        invariant Oldest(tlb[..], i, j, ultimo) == Oldest(tlb[..], 0, 0, accesos)
      {
        if tlb[i].ultimo < ultimo {
          ultimo := tlb[i].ultimo;
          j := i;
        }
        i := i + 1;
      }
    }

    method CargarEnTLB(pid: nat, numPagina: nat, nroFrame: nat)
      requires tlb.Length > 0 && frames as object != tlb
      modifies tlb
      ensures View() == TlbLoad(old(View()), pid, numPagina, nroFrame)
    {
      ghost var t := tlb[..];
      var i, acierto := 0, false;
      while i < tlb.Length && !acierto
        invariant i <= tlb.Length
        invariant acierto ==> View() == TlbLoad(old(View()), pid, numPagina, nroFrame)
        invariant !acierto ==> tlb[..] == t && FindEmpty(t, 0) == FindEmpty(t, i)
      {
        if tlb[i].pid == 0 {
          tlb[i] := TlbEntry(numPagina, nroFrame, pid, accesos % WORD);
          assert tlb[..] == t[i := TlbEntry(numPagina, nroFrame, pid, accesos % WORD)];
          acierto := true;
        }
        i := i + 1;
      }
      if !acierto {
        var k := BuscarEntradaMasAntigua();
        tlb[k] := TlbEntry(numPagina, nroFrame, pid, accesos % WORD);
        assert tlb[..] == t[k := TlbEntry(numPagina, nroFrame, pid, accesos % WORD)];
      }
    }

    method ActualizarUltimoAccesoTLB(pid: nat, nroFrame: nat)
      requires frames as object != tlb
      modifies tlb
      ensures View() == TlbTouch(old(View()), pid, nroFrame)
    {
      ghost var t := tlb[..];
      var i, acierto := 0, false;
      while i < tlb.Length && !acierto
        invariant i <= tlb.Length
        invariant acierto ==> View() == TlbTouch(old(View()), pid, nroFrame)
        invariant !acierto ==> tlb[..] == t && FindTouched(t, pid, nroFrame, 0) == FindTouched(t, pid, nroFrame, i)
      {
        if tlb[i].pid == pid && tlb[i].frame == nroFrame {
          tlb[i] := tlb[i].(ultimo := accesos % WORD);
          assert tlb[..] == t[i := t[i].(ultimo := accesos % WORD)];
          acierto := true;
        }
        i := i + 1;
      }
    }

    method LimpiarEntradasTLBporFrame(frame: nat)
      requires frames as object != tlb
      modifies tlb
      ensures tlb[..] == TlbDropFrame(old(tlb[..]), frame)
    {
      ghost var t := tlb[..];
      for i := 0 to tlb.Length
        invariant forall k :: 0 <= k < tlb.Length ==> tlb[k] == if k < i then TlbDropFrame(t, frame)[k] else t[k]
      {
        if tlb[i].frame == frame {
          tlb[i] := tlb[i].(pid := 0);
        }
      }
    }

    method LimpiarEntradasTLB(pid: nat)
      requires frames as object != tlb
      modifies tlb
      ensures tlb[..] == TlbDropPid(old(tlb[..]), pid)
    {
      ghost var t := tlb[..];
      for i := 0 to tlb.Length
        invariant forall k :: 0 <= k < tlb.Length ==> tlb[k] == if k < i then TlbDropPid(t, pid)[k] else t[k]
      {
        if tlb[i].pid == pid {
          tlb[i] := tlb[i].(pid := 0);
        }
      }
    }

    method FlushTLB()
      requires Sound()
      modifies tlb
      ensures Sound() && View() == Serve(old(View()), FlushTlb, algoritmo, marcosPorProc)
    {
      ghost var t := tlb[..];
      ServeKeeps(View(), FlushTlb, algoritmo, marcosPorProc);
      for i := 0 to tlb.Length
        invariant forall k :: 0 <= k < tlb.Length ==> tlb[k] == if k < i then TlbFlush(t)[k] else t[k]
      {
        tlb[i] := tlb[i].(pid := 0);
      }
      assert tlb[..] == TlbFlush(t);
    }

    method FlushMemoria()
      requires Sound()
      modifies frames
      ensures Sound() && View() == Serve(old(View()), UmcTables.FlushMemoria, algoritmo, marcosPorProc)
    {
      ghost var t := View();
      ServeKeeps(t, UmcTables.FlushMemoria, algoritmo, marcosPorProc);
      ghost var g := Serve(t, UmcTables.FlushMemoria, algoritmo, marcosPorProc).frames;
      for i := 0 to frames.Length
        invariant forall k :: 0 <= k < frames.Length ==> frames[k] == if k < i then g[k] else t.frames[k]
      {
        frames[i] := frames[i].(mod := true);
      }
      assert frames[..] == g;
    }

    // -------------------------------------------------------------- frames and pages

    /** Reading or writing main memory at a frame, as far as the tables see it. */
    method AccesoMemoria(frame: int)
      requires frames as object != tlb
      modifies this`accesos, frames
      ensures View() == Access(old(View()), frame)
    {
      accesos := accesos + 1;
      if 0 <= frame < frames.Length {
        frames[frame] := frames[frame].(ref := true);
      }
      assert frames[..] == SetRef(old(frames[..]), frame);
    }

    method ActualizarBitModificado(frame: int)
      requires frames as object != tlb
      modifies frames
      ensures View() == Modify(old(View()), frame)
      ensures forall x :: 0 <= x < frames.Length ==>
                frames[x] == if x == frame then old(frames[x]).(mod := true) else old(frames[x])
    {
      if 0 <= frame < frames.Length {
        frames[frame] := frames[frame].(mod := true);
      }
      assert frames[..] == SetMod(old(frames[..]), frame);
    }

    method RealizarCambiosEnPaginaVieja(frame: nat, indiceproc: nat)
      requires indiceproc < |procs|
      modifies this`procs
      ensures View() == SetPages(old(View()), indiceproc, OldPage(old(procs[indiceproc].pages), frame))
    {
      var pages := procs[indiceproc].pages;
      var i, acierto := 0, false;
      while i < |pages| && !acierto
        invariant i <= |pages|
        invariant acierto ==> View() == SetPages(old(View()), indiceproc, OldPage(pages, frame))
        invariant !acierto ==> procs == old(procs) && FindFrame(pages, frame, 0) == FindFrame(pages, frame, i)
      {
        if pages[i].frame == frame {
          procs := procs[indiceproc := procs[indiceproc].(pages := pages[i := pages[i].(status := S)])];
          acierto := true;
        }
        i := i + 1;
      }
      if !acierto {
        assert procs[indiceproc].(pages := pages) == procs[indiceproc];
      }
    }

    method RealizarCambiosEnPaginaNueva(pagNueva: nat, frame: nat, indiceproc: nat)
      requires indiceproc < |procs|
      modifies this`procs
      ensures View() == SetPages(old(View()), indiceproc, NewPage(old(procs[indiceproc].pages), pagNueva, frame))
    {
      var pages := procs[indiceproc].pages;
      var i, acierto := 0, false;
      while i < |pages| && !acierto
        invariant i <= |pages|
        invariant acierto ==> View() == SetPages(old(View()), indiceproc, NewPage(pages, pagNueva, frame))
        invariant !acierto ==> procs == old(procs) && FindPage(pages, pagNueva, 0) == FindPage(pages, pagNueva, i)
      {
        if pages[i].nro == pagNueva {
          procs := procs[indiceproc := procs[indiceproc].(pages := pages[i := pages[i].(frame := frame, status := M)])];
          acierto := true;
        }
        i := i + 1;
      }
      if !acierto {
        assert procs[indiceproc].(pages := pages) == procs[indiceproc];
      }
    }

    /** Counts the frames nobody has. */
    method CantidadFramesDisponibles() returns (contador: nat)
      ensures contador == Owned(frames[..], 0)
      ensures contador == 0 <==> FindFree(frames[..], 0) == frames.Length
    {
      contador := 0;
      ghost var f := frames[..];
      var i := 0;
      while i < frames.Length
        invariant i <= frames.Length && contador + Owned(f[i..], 0) == Owned(f, 0)
      {
        assert f[i..][1..] == f[i + 1..];
        if frames[i].pid == 0 {
          contador := contador + 1;
        }
        i := i + 1;
      }
      if contador > 0 {
        OwnedSome(f, 0);
      } else if FindFree(f, 0) < |f| {
        OwnedAt(f, 0, FindFree(f, 0));
      }
    }

    // -------------------------------------------------------------- replacement and loading

    /** From the chosen victim to the new page in its frame. */
    method Desalojar(victima: nat, pagNueva: nat, indiceproc: nat)
      requires frames as object != tlb && indiceproc < |procs| && victima < frames.Length
      modifies this`procs, this`accesos, frames, tlb
      ensures View() == Evict(old(View()), indiceproc, victima, pagNueva)
    {
      if frames[victima].mod {
        RealizarCambiosEnPaginaVieja(victima, indiceproc);
        AccesoMemoria(victima);
        ghost var g := frames[..];
        frames[victima] := frames[victima].(mod := false);
        assert frames[..] == g[victima := g[victima].(mod := false)];
      }
      RealizarCambiosEnPaginaVieja(victima, indiceproc);
      LimpiarEntradasTLBporFrame(victima);
      RealizarCambiosEnPaginaNueva(pagNueva, victima, indiceproc);
      AccesoMemoria(victima);
    }

    method AlgoritmoDeReemplazo(pid: nat, pagNueva: nat, indiceproc: nat) returns (idFrame: nat)
      requires Sound() && indiceproc < |procs| && procs[indiceproc].pid == pid && procs[indiceproc].cantFrames >= 1
      modifies this`procs, this`accesos, frames, tlb
      ensures old(procs[indiceproc].indice) < frames.Length
      ensures (View(), idFrame) == Replace(old(View()), indiceproc, pagNueva, algoritmo)
    {
      ghost var t := View();
      assert ProcOk(t.frames, procs[indiceproc], marcosPorProc);
      OwnedSome(t.frames, pid);
      VictimOwn(t.frames, pid, procs[indiceproc].indice, algoritmo);
      var puntero: nat;
      if algoritmo.CLOCK? {
        idFrame, puntero := BuscarVictimaClock(frames, pid, procs[indiceproc].indice);
      } else {
        idFrame, puntero := BuscarVictimaClockModificado(frames, pid, procs[indiceproc].indice);
      }
      procs := procs[indiceproc := procs[indiceproc].(indice := puntero)];
      Desalojar(idFrame, pagNueva, indiceproc);
    }

    /** Brings a page of the process at position `indiceproc` into memory; `idFrame` stays -1 when
        the quota allows one more frame but none is free. */
    method CargarPaginaEnMemoria(pid: nat, numPag: nat, indiceproc: nat) returns (ok: bool, idFrame: int)
      requires Sound() && indiceproc < |procs| && procs[indiceproc].pid == pid
      modifies this`procs, this`accesos, frames, tlb
      ensures Loaded(View(), ok, idFrame) == Load(old(View()), indiceproc, numPag, algoritmo, marcosPorProc)
    {
      idFrame := -1;
      ghost var t := View();
      assert ProcOk(t.frames, procs[indiceproc], marcosPorProc);
      var disponibles := 1;
      if procs[indiceproc].cantFrames == 0 {
        disponibles := CantidadFramesDisponibles();
      }
      if disponibles == 0 {
        return false, -1;
      }
      ok := true;
      if procs[indiceproc].cantFrames < marcosPorProc {
        var j := PrimerFrameLibre();
        if j < frames.Length {
          frames[j] := Frame(pid, true, false);
          assert frames[..] == t.frames[j := Frame(pid, true, false)];
          idFrame := j;
          RealizarCambiosEnPaginaNueva(numPag, j, indiceproc);
        }
        var p := procs[indiceproc];
        p := p.(cantFrames := (p.cantFrames + 1) % BYTE, indice := if p.cantFrames == 0 then j else p.indice);
        procs := procs[indiceproc := p];
        AccesoMemoria(if j < frames.Length then j else frames.Length - 1);
      } else {
        idFrame := AlgoritmoDeReemplazo(pid, numPag, indiceproc);
      }
    }

    method PrimerFrameLibre() returns (j: nat)
      ensures j == FindFree(frames[..], 0)
    {
      j := 0;
      while j < frames.Length && frames[j].pid != 0
        invariant j <= frames.Length && FindFree(frames[..], j) == FindFree(frames[..], 0)
      {
        j := j + 1;
      }
    }

    // -------------------------------------------------------------- requests

    method SolicitarBytes(pid: nat, numPagina: nat)
      requires Sound() && FindProc(procs, pid, 0) < |procs|
      modifies this`procs, this`accesos, frames, tlb
      ensures Sound() && View() == Solicitar(old(View()), pid, numPagina, algoritmo, marcosPorProc)
      ensures ReadsAsMeant(old(View()), View(), pid, numPagina)
    {
      ResidentRead(View(), pid, numPagina, algoritmo, marcosPorProc);
      SolicitarKeeps(View(), pid, numPagina, algoritmo, marcosPorProc);
      if tlb.Length > 0 {
        var hit := BuscarEnTLB(pid, numPagina);
        if hit > -1 {
          AccesoMemoria(hit);
          ActualizarUltimoAccesoTLB(pid, hit);
          return;
        }
      }
      var nroframe := BuscarEnListaProcesos(pid, numPagina);
      if nroframe == OVERFLOW {
        Terminar(pid);
      } else if nroframe > -1 {
        AccesoMemoria(nroframe);
        if tlb.Length > 0 {
          CargarEnTLB(pid, numPagina, nroframe);
          ActualizarUltimoAccesoTLB(pid, nroframe);
        }
      } else {
        var i := EncontrarPosicionEnProcesos(pid);
        var ok: bool;
        ok, nroframe := CargarPaginaEnMemoria(pid, numPagina, i);
        if ok {
          AccesoMemoria(nroframe);
        }
      }
    }

    method AlmacenarBytesPagina(pid: nat, numPagina: nat)
      requires Sound() && FindProc(procs, pid, 0) < |procs|
      modifies this`procs, this`accesos, frames, tlb
      ensures Sound() && View() == Almacenar(old(View()), pid, numPagina, algoritmo, marcosPorProc)
      ensures WritesAsMeant(old(View()), View(), pid, numPagina)
    {
      ResidentWrite(View(), pid, numPagina, algoritmo, marcosPorProc);
      AlmacenarKeeps(View(), pid, numPagina, algoritmo, marcosPorProc);
      if tlb.Length > 0 {
        var hit := BuscarEnTLB(pid, numPagina);
        if hit > -1 {
          AccesoMemoria(hit);
          ActualizarBitModificado(hit);
          ActualizarUltimoAccesoTLB(pid, hit);
          return;
        }
      }
      var nroframe := BuscarEnListaProcesos(pid, numPagina);
      if nroframe == OVERFLOW {
        Terminar(pid);
      } else if nroframe > -1 {
        if tlb.Length > 0 {
          CargarEnTLB(pid, numPagina, nroframe);
          ActualizarUltimoAccesoTLB(pid, nroframe);
        }
        AccesoMemoria(nroframe);
        ActualizarBitModificado(nroframe);
      } else {
        var i := EncontrarPosicionEnProcesos(pid);
        var ok, frame := CargarPaginaEnMemoria(pid, numPagina, i);
        if !ok {
          AccesoMemoria(nroframe);
        }
      }
    }

    method InicializarPrograma(pid: nat, cantPaginas: nat)
      requires Sound() && pid != 0 && FindProc(procs, pid, 0) == |procs|
      modifies this`procs
      ensures Sound() && View() == Begin(old(View()), pid, cantPaginas)
    {
      BeginKeeps(View(), pid, cantPaginas, marcosPorProc);
      var pages: seq<PageEntry> := [];
      for i := 0 to cantPaginas
        invariant pages == NewPages(i, frames.Length + 1)
      {
        pages := pages + [PageEntry(frames.Length + 1, i, S)];
      }
      procs := procs + [Proc(pid, 0, 0, pages)];
    }

    method LiberarMarcos(pid: nat)
      requires frames as object != tlb
      modifies frames
      ensures frames[..] == Release(old(frames[..]), pid)
    {
      ghost var f := frames[..];
      for i := 0 to frames.Length
        invariant forall k :: 0 <= k < frames.Length ==> frames[k] == if k < i then Release(f, pid)[k] else f[k]
      {
        if frames[i].pid == pid {
          frames[i] := frames[i].(pid := 0);
        }
      }
    }

    method Terminar(pid: nat)
      requires Sound() && FindProc(procs, pid, 0) < |procs|
      modifies this`procs, frames, tlb
      ensures Sound() && View() == Finish(old(View()), pid)
    {
      ghost var t := View();
      assert ProcOk(t.frames, procs[FindProc(procs, pid, 0)], marcosPorProc);
      FinishKeeps(t, pid, marcosPorProc);
      var indiceProc := EncontrarPosicionEnProcesos(pid);
      LiberarMarcos(pid);
      procs := procs[..indiceProc] + procs[indiceProc + 1..];
      LimpiarEntradasTLB(pid);
    }

    /** A CPU switches from one process to another. */
    method CambioProceso(nuevo: nat, activo: nat) returns (ahora: nat)
      requires Sound()
      modifies tlb
      ensures Sound() && ahora == nuevo && View() == Serve(old(View()), Cambio(activo), algoritmo, marcosPorProc)
    {
      ServeKeeps(View(), Cambio(activo), algoritmo, marcosPorProc);
      LimpiarEntradasTLB(activo);
      ahora := nuevo;
    }
  }
}
