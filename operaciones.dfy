/**
 * What each edit of `AdministradorRedes` does to the campus dict, as a
 * function of the dict before it: `agregar_campus`, `modificar_campus`,
 * `borrar_campus`, `agregar_dispositivos`, `modificar_dispositivo` and
 * `borrar_dispositivo`.  The methods of the class are proved to leave
 * exactly these values; the lemmas here say what the values are.
 */
module Operaciones {
  import opened Wrappers
  import opened Dicts
  import opened Inventario

  /** How an edit ended: done, or the message it printed instead. */
  datatype Resultado =
    | Hecho               // "Campus modificado.", "Dispositivo eliminado.", ...
    | CampusNoExiste      // "El campus especificado no existe."
    | DispositivoNoExiste // "El dispositivo especificado no existe en el campus."
    | EntradaIncompleta   // the answers ran out before the dialog ended
    | ErrorDeClave        // KeyError on a missing campus: the program stops, nothing was changed

  // ----- Campuses -----

  /** `self.campus[nombre] = Campus(nombre, descripcion)`: a new, empty
      campus under `nombre`, replacing any campus already there (its
      devices are lost) in its place; no other key changes. */
  function ConCampus(inv: Inventario, nombre: string, descripcion: string): (r: Inventario)
    ensures Get(r, nombre) == Some(Campus(nombre, descripcion, []))
    ensures forall k :: k != nombre ==> Get(r, k) == Get(inv, k)
    ensures Keys(r) == if nombre in Keys(inv) then Keys(inv) else Keys(inv) + [nombre]
  {
    SetGet(inv, nombre, Campus(nombre, descripcion, []));
    SetOthers(inv, nombre, Campus(nombre, descripcion, []));
    SetKeys(inv, nombre, Campus(nombre, descripcion, []));
    Set(inv, nombre, Campus(nombre, descripcion, []))
  }

  /** `self.campus[nombre].descripcion = nueva` when `nombre in self.campus`:
      only that campus's description changes, not its name, its devices or
      its place; an absent name leaves the dict as it is. */
  function ConDescripcion(inv: Inventario, nombre: string, nueva: string): (r: Inventario)
    ensures nombre !in Keys(inv) ==> r == inv
    ensures Keys(r) == Keys(inv)
    ensures forall k :: k != nombre ==> Get(r, k) == Get(inv, k)
    ensures Get(inv, nombre).Some? ==> Get(r, nombre) == Some(Get(inv, nombre).value.(descripcion := nueva))
  {
    match Get(inv, nombre)
    case None => inv
    case Some(c) =>
      SetGet(inv, nombre, c.(descripcion := nueva));
      SetOthers(inv, nombre, c.(descripcion := nueva));
      SetKeys(inv, nombre, c.(descripcion := nueva));
      Set(inv, nombre, c.(descripcion := nueva))
  }

  /** `del self.campus[nombre]` when `nombre in self.campus`: exactly that
      key goes, the others keep their values and their order; an absent
      name leaves the dict as it is. */
  function SinCampus(inv: Inventario, nombre: string): (r: Inventario)
    ensures nombre !in Keys(inv) ==> r == inv
    ensures nombre in Keys(inv) ==> |r| == |inv| - 1
    ensures Wf(inv) ==> nombre !in Keys(r)
    ensures forall k :: k != nombre ==> Get(r, k) == Get(inv, k)
    ensures Keys(r) == match IndexOf(inv, nombre)
      case None => Keys(inv)
      case Some(i) => Keys(inv)[..i] + Keys(inv)[i + 1..]
  {
    RemoveKeys(inv, nombre);
    RemoveOthers(inv, nombre);
    RemoveWf(inv, nombre);
    Remove(inv, nombre)
  }

  // ----- Devices -----

  /** `self.campus[nombre_campus].dispositivos.extend(nuevos)`: the batch goes
      at the end of that campus's list, in order; a missing campus is the
      KeyError, raised before anything changes. */
  function ConDispositivos(inv: Inventario, nombreCampus: string, nuevos: seq<Dispositivo>): (r: Inventario)
    ensures nombreCampus !in Keys(inv) ==> r == inv
    ensures Keys(r) == Keys(inv)
    ensures forall k :: k != nombreCampus ==> Get(r, k) == Get(inv, k)
    ensures Get(inv, nombreCampus).Some? ==>
              var c := Get(inv, nombreCampus).value;
              Get(r, nombreCampus) == Some(c.(dispositivos := c.dispositivos + nuevos))
  {
    match Get(inv, nombreCampus)
    case None => inv
    case Some(c) =>
      var c' := c.(dispositivos := c.dispositivos + nuevos);
      SetGet(inv, nombreCampus, c');
      SetOthers(inv, nombreCampus, c');
      SetKeys(inv, nombreCampus, c');
      Set(inv, nombreCampus, c')
  }

  /** Which message `modificar_dispositivo` and `borrar_dispositivo` end with. */
  function Busqueda(inv: Inventario, nombreCampus: string, nombreDispositivo: string): (r: Resultado)
    ensures r != EntradaIncompleta && r != ErrorDeClave
    ensures r == CampusNoExiste <==> nombreCampus !in Keys(inv)
    ensures r == Hecho <==> Get(inv, nombreCampus).Some? && PrimerIndice(Get(inv, nombreCampus).value.dispositivos, nombreDispositivo).Some?
    ensures r == DispositivoNoExiste <==>
              Get(inv, nombreCampus).Some? && PrimerIndice(Get(inv, nombreCampus).value.dispositivos, nombreDispositivo).None?
  {
    match Get(inv, nombreCampus)
    case None => CampusNoExiste
    case Some(c) => if PrimerIndice(c.dispositivos, nombreDispositivo).Some? then Hecho else DispositivoNoExiste
  }

  /** `modificar_dispositivo`: the first device of the campus called
      `nombreDispositivo` takes the six other fields of `nuevo` and keeps its
      name; every other device, later namesakes included, and every other
      campus stay as they were.  A missing campus or device changes nothing. */
  function ConDispositivoModificado(inv: Inventario, nombreCampus: string, nombreDispositivo: string,
                                    nuevo: Dispositivo): (r: Inventario)
    ensures Busqueda(inv, nombreCampus, nombreDispositivo) != Hecho ==> r == inv
    ensures Keys(r) == Keys(inv)
    ensures forall k :: k != nombreCampus ==> Get(r, k) == Get(inv, k)
    ensures Busqueda(inv, nombreCampus, nombreDispositivo) == Hecho ==>
              var c := Get(inv, nombreCampus).value;
              var i := PrimerIndice(c.dispositivos, nombreDispositivo).value;
              Get(r, nombreCampus) == Some(c.(dispositivos := c.dispositivos[i := Reasignado(c.dispositivos[i], nuevo)]))
  {
    match Get(inv, nombreCampus)
    case None => inv
    case Some(c) =>
      match PrimerIndice(c.dispositivos, nombreDispositivo)
      case None => inv
      case Some(i) =>
        var c' := c.(dispositivos := c.dispositivos[i := Reasignado(c.dispositivos[i], nuevo)]);
        SetGet(inv, nombreCampus, c');
        SetOthers(inv, nombreCampus, c');
        SetKeys(inv, nombreCampus, c');
        Set(inv, nombreCampus, c')
  }

  /** `borrar_dispositivo`: the first device of the campus called
      `nombreDispositivo` is cut out, the rest keep their order; every other
      campus stays as it was.  A missing campus or device changes nothing. */
  function SinDispositivo(inv: Inventario, nombreCampus: string, nombreDispositivo: string): (r: Inventario)
    ensures Busqueda(inv, nombreCampus, nombreDispositivo) != Hecho ==> r == inv
    ensures Keys(r) == Keys(inv)
    ensures forall k :: k != nombreCampus ==> Get(r, k) == Get(inv, k)
    ensures Busqueda(inv, nombreCampus, nombreDispositivo) == Hecho ==>
              var c := Get(inv, nombreCampus).value;
              var i := PrimerIndice(c.dispositivos, nombreDispositivo).value;
              Get(r, nombreCampus) == Some(c.(dispositivos := c.dispositivos[..i] + c.dispositivos[i + 1..]))
  {
    match Get(inv, nombreCampus)
    case None => inv
    case Some(c) =>
      match PrimerIndice(c.dispositivos, nombreDispositivo)
      case None => inv
      case Some(i) =>
        var c' := c.(dispositivos := c.dispositivos[..i] + c.dispositivos[i + 1..]);
        SetGet(inv, nombreCampus, c');
        SetOthers(inv, nombreCampus, c');
        SetKeys(inv, nombreCampus, c');
        Set(inv, nombreCampus, c')
  }

  // ----- What the edits keep -----

  /** Every edit keeps the inventory valid: one entry per name, each campus
      under its own name, every device with real dicts. */
  lemma ConCampusValido(inv: Inventario, nombre: string, descripcion: string)
    requires InventarioValido(inv)
    ensures InventarioValido(ConCampus(inv, nombre, descripcion))
  {
    SetValido(inv, Campus(nombre, descripcion, []));
  }

  lemma ConDescripcionValido(inv: Inventario, nombre: string, nueva: string)
    requires InventarioValido(inv)
    ensures InventarioValido(ConDescripcion(inv, nombre, nueva))
  {
    if Get(inv, nombre).Some? {
      GetValido(inv, nombre);
      SetValido(inv, Get(inv, nombre).value.(descripcion := nueva));
    }
  }

  lemma SinCampusValido(inv: Inventario, nombre: string)
    requires InventarioValido(inv)
    ensures InventarioValido(SinCampus(inv, nombre))
  {
    RemoveValido(inv, nombre);
  }

  lemma ConDispositivosValido(inv: Inventario, nombreCampus: string, nuevos: seq<Dispositivo>)
    requires InventarioValido(inv) && forall d <- nuevos :: DispositivoValido(d)
    ensures InventarioValido(ConDispositivos(inv, nombreCampus, nuevos))
  {
    if Get(inv, nombreCampus).Some? {
      var c := Get(inv, nombreCampus).value;
      GetValido(inv, nombreCampus);
      SetValido(inv, c.(dispositivos := c.dispositivos + nuevos));
    }
  }

  lemma ConDispositivoModificadoValido(inv: Inventario, nombreCampus: string, nombreDispositivo: string,
                                       nuevo: Dispositivo)
    requires InventarioValido(inv) && DispositivoValido(nuevo)
    ensures InventarioValido(ConDispositivoModificado(inv, nombreCampus, nombreDispositivo, nuevo))
  {
    if Busqueda(inv, nombreCampus, nombreDispositivo) == Hecho {
      var c := Get(inv, nombreCampus).value;
      var ds := c.dispositivos;
      var i := PrimerIndice(ds, nombreDispositivo).value;
      GetValido(inv, nombreCampus);
      var ds' := ds[i := Reasignado(ds[i], nuevo)];
      forall d <- ds' ensures DispositivoValido(d) {
        if d != Reasignado(ds[i], nuevo) {
          var j :| 0 <= j < |ds'| && ds'[j] == d;
          assert d == ds[j];
        }
      }
      SetValido(inv, c.(dispositivos := ds'));
    }
  }

  lemma SinDispositivoValido(inv: Inventario, nombreCampus: string, nombreDispositivo: string)
    requires InventarioValido(inv)
    ensures InventarioValido(SinDispositivo(inv, nombreCampus, nombreDispositivo))
  {
    if Busqueda(inv, nombreCampus, nombreDispositivo) == Hecho {
      var c := Get(inv, nombreCampus).value;
      var ds := c.dispositivos;
      var i := PrimerIndice(ds, nombreDispositivo).value;
      GetValido(inv, nombreCampus);
      var ds' := ds[..i] + ds[i + 1..];
      forall d <- ds' ensures DispositivoValido(d) {
        var j :| 0 <= j < |ds'| && ds'[j] == d;
        assert d == ds[if j < i then j else j + 1];
      }
      SetValido(inv, c.(dispositivos := ds'));
    }
  }

  // ----- How the edits combine -----

  /** Adding a campus and then changing its description leaves an empty
      campus of that name with the new description, whatever was there
      before; every other campus is as it was before both. */
  lemma ModificarTrasAgregar(inv: Inventario, nombre: string, descripcion: string, nueva: string)
    ensures var r := ConDescripcion(ConCampus(inv, nombre, descripcion), nombre, nueva);
            && Get(r, nombre) == Some(Campus(nombre, nueva, []))
            && forall k :: k != nombre ==> Get(r, k) == Get(inv, k)
  {
  }

  /** Adding a campus and then deleting it leaves the other campuses as they
      were, in their order; a campus of that name that existed before is
      gone too. */
  lemma BorrarTrasAgregar(inv: Inventario, nombre: string, descripcion: string)
    requires Wf(inv)
    ensures var r := SinCampus(ConCampus(inv, nombre, descripcion), nombre);
            && nombre !in Keys(r)
            && (forall k :: k != nombre ==> Get(r, k) == Get(inv, k))
            && (nombre !in Keys(inv) ==> r == inv)
  {
    var c := Campus(nombre, descripcion, []);
    SetWf(inv, nombre, c);
    if nombre !in Keys(inv) {
      SetFresh(inv, nombre, c);
      var a := inv + [(nombre, c)];
      assert IndexOf(a, nombre) == Some(|inv|) by {
        forall j | 0 <= j < |inv| ensures a[j].0 != nombre {
          assert Keys(inv)[j] == inv[j].0;
        }
        IndexOfAt(a, |inv|);
      }
      assert a[..|inv|] == inv;
    }
  }

  /** Cutting position `i` out of a list removes one occurrence of its element. */
  lemma CortarUno<T>(s: seq<T>, i: nat)
    requires i < |s|
    ensures multiset(s[..i] + s[i + 1..]) + multiset{s[i]} == multiset(s)
  {
    assert s == s[..i] + [s[i]] + s[i + 1..];
  }

  /** In a run of entries where position `i` is the first to hold `k`,
      the lookup finds `i`. */
  lemma {:induction false} IndexOfAt<V>(d: Dict<V>, i: nat)
    requires i < |d| && forall j :: 0 <= j < i ==> d[j].0 != d[i].0
    ensures IndexOf(d, d[i].0) == Some(i)
  {
    if i > 0 {
      IndexOfAt(d[1..], i - 1);
    }
  }

  /** Deleting a device drops one device: the first of that name.  The list
      is one shorter, the devices before it and after it keep their order,
      and the deleted one is the only one missing. */
  lemma BorrarDispositivoQuitaUno(inv: Inventario, nombreCampus: string, nombreDispositivo: string)
    requires Busqueda(inv, nombreCampus, nombreDispositivo) == Hecho
    ensures var antes := Get(inv, nombreCampus).value.dispositivos;
            var despues := Get(SinDispositivo(inv, nombreCampus, nombreDispositivo), nombreCampus).value.dispositivos;
            var i := PrimerIndice(antes, nombreDispositivo).value;
            && |despues| == |antes| - 1
            && antes[i].nombre == nombreDispositivo
            && (forall j :: 0 <= j < i ==> antes[j].nombre != nombreDispositivo && despues[j] == antes[j])
            && (forall j :: i <= j < |despues| ==> despues[j] == antes[j + 1])
            && multiset(despues) + multiset{antes[i]} == multiset(antes)
  {
    var antes := Get(inv, nombreCampus).value.dispositivos;
    var i := PrimerIndice(antes, nombreDispositivo).value;
    var despues := Get(SinDispositivo(inv, nombreCampus, nombreDispositivo), nombreCampus).value.dispositivos;
    assert despues == antes[..i] + antes[i + 1..];
    CortarUno(antes, i);
    CortarEnOrden(antes, i);
  }

  /** Cutting position `i` out of a list keeps the elements before it in
      place and moves the ones after it down by one. */
  lemma CortarEnOrden<T>(s: seq<T>, i: nat)
    requires i < |s|
    ensures forall j :: 0 <= j < i ==> (s[..i] + s[i + 1..])[j] == s[j]
    ensures forall j :: i < j < |s| ==> (s[..i] + s[i + 1..])[j - 1] == s[j]
  {
  }
}
