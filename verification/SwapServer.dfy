/** The swap process: a bitmap array with one guard entry past its end, and the swap file page
    by page, both rewritten in place by the scans and the compaction of the original. */
module SwapServer {
  import opened Bytes
  import opened SwapTable
  import opened SwapRequests

  datatype Entry = Entry(pid: int, estado: int)

  const FREE_ENTRY := Entry(NO_PID, 0)

  class Swap {
    const cantPag: nat
    const tamPag: nat
    const bitMap: array<Entry>
    const archivo: array<Page>

    ghost predicate Shape()
      reads bitMap, archivo
    {
      && bitMap.Length == cantPag + 1 && archivo.Length == cantPag && bitMap as object != archivo
      && bitMap[cantPag] == FREE_ENTRY
      && forall i :: 0 <= i < cantPag ==> bitMap[i].estado == 0 || bitMap[i].estado == 1
    }

    function SlotAt(i: nat): Slot
      requires i < bitMap.Length && i < archivo.Length
      reads bitMap, archivo
    {
      Slot(bitMap[i].pid, bitMap[i].estado == 1, archivo[i])
    }

    ghost function View(): (s: Slots)
      requires Shape()
      reads bitMap, archivo
      ensures |s| == cantPag && forall i :: 0 <= i < cantPag ==> s[i] == SlotAt(i)
    {
      seq(cantPag, i requires 0 <= i < cantPag reads bitMap, archivo => SlotAt(i))
    }

    ghost predicate Sound()
      reads bitMap, archivo
    {
      Shape() && Ok(View(), tamPag)
    }

    /** The area as it is once the bitmap and the file are initialised: nothing is used. */
    constructor (cantPag: nat, tamPag: nat)
      ensures Sound() && View() == Empty(cantPag, tamPag) && this.cantPag == cantPag && this.tamPag == tamPag
      ensures fresh(bitMap) && fresh(archivo)
    {
      this.cantPag, this.tamPag := cantPag, tamPag;
      bitMap := new Entry[cantPag + 1](_ => FREE_ENTRY);
      archivo := new Page[cantPag](_ => Zeros(tamPag));
      new;
      assert View() == Empty(cantPag, tamPag);
      EmptyOk(cantPag, tamPag);
    }

    /** Whether at least `paginas` slots are free; stops counting when it has seen enough. */
    method EspacioDisponible(paginas: nat) returns (r: bool)
      requires Shape()
      ensures r <==> paginas <= FreeCount(View())
    {
      var i, j := 0, 0;
      while i < cantPag && j != paginas
        invariant i <= cantPag && j <= paginas && j + FreeCount(View()[i..]) == FreeCount(View())
      {
        assert View()[i..][1..] == View()[i + 1..];
        if bitMap[i].estado == 0 {
          j := j + 1;
        }
        i := i + 1;
      }
      r := j == paginas;
    }

    /** The first run of `paginas` free slots whose last one is followed by a free entry, or -1. */
    method Contiguo(paginas: nat) returns (r: int)
      requires Shape() && paginas > 0
      ensures r == FirstRun(View(), paginas, 0)
      ensures r != -1 ==>
                0 <= r && r + paginas <= cantPag && forall i :: r <= i <= r + paginas ==> bitMap[i].estado == 0
      ensures forall a: nat :: a + paginas <= cantPag && (r == -1 || a < r) ==> UsedWithin(View(), a, paginas)
    {
      var i, j, fin := 0, 0, 0;
      ghost var s := View();
      while i < cantPag && j != paginas
        invariant i <= cantPag && 0 <= j <= paginas && j <= i && (j > 0 ==> fin == i - 1)
        invariant forall t :: i - j <= t <= i && (t < i || j > 0) ==> FreeAt(s, t)
        invariant forall a :: 0 <= a < i - j ==> !RunAt(s, a, paginas)
      {
        if bitMap[i].estado == 0 && bitMap[i + 1].estado == 0 {
          assert FreeAt(s, i) && FreeAt(s, i + 1);
          j := j + 1;
          fin := i;
        } else {
          assert !FreeAt(s, i) || !FreeAt(s, i + 1);
          forall a | i - j <= a <= i ensures !RunAt(s, a, paginas) {
            assert a <= i < i + 1 <= a + paginas;
          }
          j := 0;
        }
        i := i + 1;
      }
      if j == paginas {
        r := fin - paginas + 1;
        assert RunAt(s, r, paginas);
      } else {
        r := -1;
      }
      forall i | r != -1 && r <= i <= r + paginas ensures bitMap[i].estado == 0 {
        assert FreeAt(s, i);
      }
      forall a: nat | a + paginas <= cantPag && (r == -1 || a < r) ensures UsedWithin(s, a, paginas) {
        RunMeansFree(s, a, paginas);
      }
    }

    method Asignacion(pid: nat, paginas: nat, inicio: nat)
      requires Shape() && inicio + paginas <= cantPag
      modifies bitMap
      ensures Shape() && View() == Assign(old(View()), pid, paginas, inicio)
    {
      var i := inicio;
      ghost var s := View();
      while i < inicio + paginas
        invariant inicio <= i <= inicio + paginas && Shape() && View() == Assign(s, pid, i - inicio, inicio)
      {
        ghost var v := View();
        bitMap[i] := Entry(pid, 1);
        assert View() == v[i := Slot(pid, true, v[i].page)];
        i := i + 1;
      }
    }

    /** Exchanges slot `i` with the next one, entry and page content together. */
    method Exchange(i: nat)
      requires Shape() && i + 1 < cantPag
      modifies bitMap, archivo
      ensures Shape() && View() == old(View())[i := old(View())[i + 1]][i + 1 := old(View())[i]]
    {
      var aux := bitMap[i];
      var archivoAux := archivo[i];
      bitMap[i] := bitMap[i + 1];
      var archivoAux2 := archivo[i + 1];
      archivo[i] := archivoAux2;
      bitMap[i + 1] := aux;
      archivo[i + 1] := archivoAux;
      assert View() == old(View())[i := old(View())[i + 1]][i + 1 := old(View())[i]];
    }

    /** Compaction by `cantPag` bubble passes: a stable partition into used and free slots. */
    method Compactar()
      requires Shape()
      modifies bitMap, archivo
      ensures Shape() && View() == Compacted(old(View()))
    {
      ghost var s := View();
      var j := 0;
      while j < cantPag
        invariant j <= cantPag && Shape() && UsedOf(View()) == UsedOf(s) && FreeOf(View()) == FreeOf(s)
        invariant forall b :: cantPag - j <= b < cantPag ==> Settled(View(), b)
      {
        Pass(j);
        j := j + 1;
      }
      SettledIsCompacted(View());
    }

    /** One pass settles one more slot at the end. */
    method Pass(ghost j: nat)
      requires Shape() && j < cantPag
      requires forall b :: cantPag - j <= b < cantPag ==> Settled(View(), b)
      modifies bitMap, archivo
      ensures Shape() && UsedOf(View()) == UsedOf(old(View())) && FreeOf(View()) == FreeOf(old(View()))
      ensures forall b :: cantPag - j - 1 <= b < cantPag ==> Settled(View(), b)
    {
      ghost var s := View();
      var i := 0;
      while i < cantPag - 1
        invariant i <= cantPag - 1 && Shape() && UsedOf(View()) == UsedOf(s) && FreeOf(View()) == FreeOf(s)
        invariant Settled(View(), i)
        invariant forall b :: cantPag - j <= b < cantPag ==> Settled(View(), b)
        invariant i >= cantPag - j - 1 ==> Settled(View(), cantPag - j - 1)
      {
        ghost var v := View();
        if bitMap[i].estado == 0 && bitMap[i + 1].estado == 1 {
          SwapKeepsFilters(v, i);
          SwapSettles(v, i, cantPag - j);
          Exchange(i);
        } else {
          assert Settled(v, i + 1);
        }
        i := i + 1;
      }
    }

    /** The page content a read finds; the search for the process gives up at index `tamPag`. */
    method Leer(pid: nat, nroPagina: nat) returns (contenido: seq<byte>)
      requires Sound() && Valid(Abs(View()), SwapRequests.Leer(pid, nroPagina), tamPag)
      ensures contenido == CString(ReadPage(View(), pid, nroPagina, tamPag))
    {
      ghost var s := View();
      MemIs(s, pid);
      Located(s, pid, nroPagina, tamPag);
      SearchLimited(s, pid, tamPag);
      var i := 0;
      while bitMap[i].pid != pid && i < tamPag
        invariant i <= tamPag && i <= Search(s, pid, cantPag) && SearchFrom(s, pid, i, tamPag) == Search(s, pid, tamPag)
        decreases tamPag - i
      {
        i := i + 1;
      }
      i := i + nroPagina;
      contenido := CString(archivo[i]);
    }

    method Escribir(pid: nat, nroPagina: nat, contenido: Page)
      requires Sound() && Valid(Abs(View()), SwapRequests.Escribir(pid, nroPagina, contenido), tamPag)
      modifies archivo
      ensures Shape()
      ensures View() == Serve(old(View()), SwapRequests.Escribir(pid, nroPagina, contenido), tamPag, tamPag).0
    {
      ghost var s := View();
      MemIs(s, pid);
      var i := 0;
      while bitMap[i].pid != pid && i < cantPag
        invariant i <= cantPag && SearchFrom(s, pid, i, cantPag) == Search(s, pid, cantPag)
        decreases cantPag - i
      {
        i := i + 1;
      }
      if bitMap[i].pid == pid {
        PagesOfSome(s, pid, i);
        Located(s, pid, nroPagina, tamPag);
        i := i + nroPagina;
        archivo[i] := Overlay(archivo[i], contenido);
        assert View() == s[i := s[i].(page := Overlay(s[i].page, contenido))];
      }
    }

    /** Frees the run of a process, wiping its pages; by contiguity that is all it has. */
    method LiberarMemoria(pid: nat)
      requires Sound()
      modifies bitMap, archivo
      ensures Shape() && View() == Clear(old(View()), pid, tamPag)
    {
      ghost var s := View();
      var i := 0;
      while i < cantPag && bitMap[i].pid != pid
        invariant i <= cantPag && forall a :: 0 <= a < i ==> s[a].pid != pid
      {
        i := i + 1;
      }
      ghost var a := i;
      assert a < cantPag ==> s[a].pid == pid;
      while i < cantPag && bitMap[i].pid == pid
        invariant a <= i <= cantPag && Shape()
        invariant forall k :: 0 <= k < cantPag ==> View()[k] == if a <= k < i then FreeSlot(tamPag) else s[k]
        invariant forall k :: a <= k < i ==> s[k].pid == pid
        invariant a < cantPag && i == a ==> View()[i] == s[i]
      {
        ghost var v := View();
        bitMap[i] := FREE_ENTRY;
        archivo[i] := Zeros(tamPag);
        assert View() == v[i := FreeSlot(tamPag)];
        i := i + 1;
      }
      if i < cantPag {
        assert View()[i] == s[i] && a < i;
        RunEnds(s, pid, a, i, tamPag);
      }
      assert View() == Clear(s, pid, tamPag);
    }

    /** One request of the memory unit. */
    method RealizarPedidoUMC(req: Request) returns (r: Reply)
      requires Sound() && Valid(Abs(View()), req, tamPag)
      modifies bitMap, archivo
      ensures Sound() && (View(), r) == Serve(old(View()), req, tamPag, tamPag)
    {
      ghost var s := View();
      match req {
        case Iniciar(pid, paginas) =>
          SimIniciar(s, pid, paginas, tamPag, tamPag);
          var hay := EspacioDisponible(paginas);
          if hay {
            var inicio := Contiguo(paginas);
            if inicio != -1 {
              Asignacion(pid, paginas, inicio);
            } else {
              CompactionMakesRoom(s, paginas, tamPag);
              Compactar();
              inicio := Contiguo(paginas);
              Asignacion(pid, paginas, inicio);
            }
            r := Exito;
          } else {
            r := Error;
          }
        case Leer(pid, nroPagina) =>
          var contenido := Leer(pid, nroPagina);
          r := Content(contenido);
        case Escribir(pid, nroPagina, contenido) =>
          SimEscribir(s, pid, nroPagina, contenido, tamPag, tamPag);
          Escribir(pid, nroPagina, contenido);
          r := Silence;
        case Finalizar(pid) =>
          SimFinalizar(s, pid, tamPag, tamPag);
          LiberarMemoria(pid);
          r := Exito;
      }
    }
  }
}
