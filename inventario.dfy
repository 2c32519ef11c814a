/**
 * The inventory's records and the pure pieces of `AdministradorRedes`:
 * `Campus` and `Dispositivo` (constructed at administrador_redes.py:19 and
 * :240), the layer menu, the first-match search over a campus's device
 * list, and the dialog steps that build a device.
 */
module Inventario {
  import opened Wrappers
  import opened Dicts
  import opened Text
  import opened Ipv4

  /** `Dispositivo(nombre, modelo, capa, interfaces, ips_masks, vlans, servicios)`;
      `ips_masks` maps an interface to its `(ip, mask)` pair, `vlans` a VLAN
      name to its number (both as typed). */
  datatype Dispositivo = Dispositivo(
    nombre: string,
    modelo: string,
    capa: string,
    interfaces: seq<string>,
    ipsMasks: Dict<(string, string)>,
    vlans: Dict<string>,
    servicios: seq<string>)

  /** `Campus(nombre, descripcion)` with its `dispositivos` list. */
  datatype Campus = Campus(nombre: string, descripcion: string, dispositivos: seq<Dispositivo>)

  /** `AdministradorRedes.campus`: campus name to campus, in insertion order. */
  type Inventario = Dict<Campus>

  /** The dicts of a device are real dicts. */
  predicate DispositivoValido(d: Dispositivo)
  {
    Wf(d.ipsMasks) && Wf(d.vlans)
  }

  /** What every operation keeps: one entry per name, each campus stored
      under its own name, every device well formed. */
  predicate InventarioValido(inv: Inventario)
  {
    && Wf(inv)
    && (forall i :: 0 <= i < |inv| ==> inv[i].1.nombre == inv[i].0)
    && (forall i, d :: 0 <= i < |inv| && d in inv[i].1.dispositivos ==> DispositivoValido(d))
  }

  /** Storing a well-formed campus under its own name keeps the inventory valid. */
  lemma {:induction false} SetValido(inv: Inventario, c: Campus)
    requires InventarioValido(inv)
    requires forall d <- c.dispositivos :: DispositivoValido(d)
    ensures InventarioValido(Set(inv, c.nombre, c))
  {
    var r := Set(inv, c.nombre, c);
    SetWf(inv, c.nombre, c);
    forall i | 0 <= i < |r|
      ensures r[i].1.nombre == r[i].0 && forall d <- r[i].1.dispositivos :: DispositivoValido(d)
    {
      SetEntries(inv, c.nombre, c, r[i]);
    }
  }

  // ----- seleccionar_capa -----

  const NUCLEO := "Núcleo"
  const DISTRIBUCION := "Distribución"
  const ACCESO := "Acceso"
  const DESCONOCIDA := "Desconocida"

  /** The dict literal of `seleccionar_capa`. */
  const CAPAS: Dict<string> := [("1", NUCLEO), ("2", DISTRIBUCION), ("3", ACCESO)]

  /** `{"1": "Núcleo", "2": "Distribución", "3": "Acceso"}.get(opcion, "Desconocida")`. */
  function SeleccionarCapa(opcion: string): (capa: string)
    ensures capa == NUCLEO <==> opcion == "1"
    ensures capa == DISTRIBUCION <==> opcion == "2"
    ensures capa == ACCESO <==> opcion == "3"
    ensures capa == DESCONOCIDA <==> opcion != "1" && opcion != "2" && opcion != "3"
  {
    assert NUCLEO[0] == 'N' && DISTRIBUCION[0] == 'D' && ACCESO[0] == 'A';
    assert DESCONOCIDA[0] == 'D' && |DESCONOCIDA| != |DISTRIBUCION|;
    assert Keys(CAPAS) == ["1", "2", "3"];
    match Get(CAPAS, opcion)
    case Some(c) => c
    case None => DESCONOCIDA
  }

  // ----- First device with a given name -----

  /** Index of the first device called `nombre`, as the `for ... if ... return`
      loops of `modificar_dispositivo` and `borrar_dispositivo` find it. */
  function PrimerIndice(ds: seq<Dispositivo>, nombre: string): (r: Option<nat>)
    ensures r.None? <==> forall d <- ds :: d.nombre != nombre
    ensures r.Some? ==> r.value < |ds| && ds[r.value].nombre == nombre
    ensures r.Some? ==> forall j :: 0 <= j < r.value ==> ds[j].nombre != nombre
  {
    if ds == [] then None
    else if ds[0].nombre == nombre then Some(0)
    else match PrimerIndice(ds[1..], nombre)
      case None => None
      case Some(i) => Some(i + 1)
  }

  /** The device after `modificar_dispositivo` reassigned its fields: the
      name stays, the other six fields come from `nuevo`. */
  function Reasignado(d: Dispositivo, nuevo: Dispositivo): (r: Dispositivo)
    ensures r.nombre == d.nombre
    ensures r.(nombre := nuevo.nombre) == nuevo
  {
    nuevo.(nombre := d.nombre)
  }

  /** Index of the first element equal to `x`, where `list.remove` looks. */
  function PrimerIgual(ds: seq<Dispositivo>, x: Dispositivo): (i: nat)
    requires x in ds
    ensures i < |ds| && ds[i] == x && x !in ds[..i]
  {
    if ds[0] == x then 0
    else
      assert x in ds[1..] by { assert ds == [ds[0]] + ds[1..]; }
      var j := PrimerIgual(ds[1..], x);
      assert ds[..j + 1] == [ds[0]] + ds[1..][..j];
      j + 1
  }

  /** `list.remove(x)`: drops the first element equal to `x`; the others
      keep their order. */
  function QuitarPrimeroIgual(ds: seq<Dispositivo>, x: Dispositivo): (r: seq<Dispositivo>)
    requires x in ds
    ensures |r| == |ds| - 1
    ensures multiset(r) + multiset{x} == multiset(ds)
    ensures exists i :: 0 <= i < |ds| && ds[i] == x && x !in ds[..i] && r == ds[..i] + ds[i + 1..]
  {
    var i := PrimerIgual(ds, x);
    assert ds == ds[..i] + [ds[i]] + ds[i + 1..];
    ds[..i] + ds[i + 1..]
  }

  /** `borrar_dispositivo` finds the first device called `nombre` and then
      calls `remove` on it; `remove` drops that very position, since no
      earlier device can equal it (an equal device would have the name). */
  lemma QuitarPrimeroIgualEnIndice(ds: seq<Dispositivo>, nombre: string)
    requires PrimerIndice(ds, nombre).Some?
    ensures var i := PrimerIndice(ds, nombre).value;
            QuitarPrimeroIgual(ds, ds[i]) == ds[..i] + ds[i + 1..]
  {
    var i := PrimerIndice(ds, nombre).value;
    var k := PrimerIgual(ds, ds[i]);
    assert k == i;
  }

  // ----- The entry dialogs -----

  /** Number of answers read before the one that ends a dialog
      (`nombre.lower() == "fin"`), or all of them if none does. */
  function HastaFin(nombres: seq<string>): (n: nat)
    ensures n <= |nombres|
    ensures forall j :: 0 <= j < n ==> !IsFin(nombres[j])
    ensures n < |nombres| ==> IsFin(nombres[n])
  {
    if nombres == [] || IsFin(nombres[0]) then 0 else 1 + HastaFin(nombres[1..])
  }

  /** The answers whose IP passes `es_direccion_ipv4`, in order. */
  function Validas(respuestas: seq<(string, string)>): (r: seq<(string, string)>)
    ensures forall p <- r :: EsDireccionIpv4(p.0) && p in respuestas
  {
    if respuestas == [] then []
    else
      var n := |respuestas| - 1;
      Validas(respuestas[..n]) + (if EsDireccionIpv4(respuestas[n].0) then [respuestas[n]] else [])
  }

  /** The valid answers among the first `k` come first among all valid answers. */
  lemma {:induction false} ValidasPrefix(respuestas: seq<(string, string)>, k: nat)
    requires k <= |respuestas|
    ensures Validas(respuestas[..k]) <= Validas(respuestas)
  {
    if k < |respuestas| {
      var n := |respuestas| - 1;
      assert respuestas[..n][..k] == respuestas[..k];
      ValidasPrefix(respuestas[..n], k);
    } else {
      assert respuestas[..k] == respuestas;
    }
  }

  /** Interfaces paired with their answers. */
  function Zip(interfaces: seq<string>, valores: seq<(string, string)>): (r: seq<(string, (string, string))>)
    requires |interfaces| == |valores|
    ensures |r| == |interfaces|
    ensures forall j :: 0 <= j < |r| ==> r[j] == (interfaces[j], valores[j])
  {
    seq(|interfaces|, j requires 0 <= j < |interfaces| => (interfaces[j], valores[j]))
  }

  /** One more answer read: it is kept when its ip is valid. */
  lemma ValidasSnoc(respuestas: seq<(string, string)>, k: nat)
    requires k < |respuestas|
    ensures Validas(respuestas[..k + 1]) ==
            Validas(respuestas[..k]) + (if EsDireccionIpv4(respuestas[k].0) then [respuestas[k]] else [])
  {
    assert respuestas[..k + 1][..k] == respuestas[..k];
  }

  /** One more interface stored. */
  lemma ZipSnoc(interfaces: seq<string>, i: nat, valores: seq<(string, string)>, v: (string, string))
    requires i < |interfaces| && |valores| == i
    ensures FromPairs(Zip(interfaces[..i + 1], valores + [v])) ==
            Set(FromPairs(Zip(interfaces[..i], valores)), interfaces[i], v)
  {
    var pares := Zip(interfaces[..i + 1], valores + [v]);
    assert pares[..i] == Zip(interfaces[..i], valores);
  }

  /** The re-prompt loop of `ingresar_ips_masks`: from answer `desde` on,
      skip answers whose ip is invalid; `k` is the first valid one, or the end
      of the answers. */
  method SiguienteValida(respuestas: seq<(string, string)>, desde: nat) returns (k: nat)
    requires desde <= |respuestas|
    ensures desde <= k <= |respuestas|
    ensures k < |respuestas| ==> EsDireccionIpv4(respuestas[k].0)
    ensures forall j :: desde <= j < k ==> !EsDireccionIpv4(respuestas[j].0)
    ensures Validas(respuestas[..k]) == Validas(respuestas[..desde])
  {
    k := desde;
    while k < |respuestas|
      invariant desde <= k <= |respuestas|
      invariant forall j :: desde <= j < k ==> !EsDireccionIpv4(respuestas[j].0)
      invariant Validas(respuestas[..k]) == Validas(respuestas[..desde])
    {
      if EsDireccionIpv4(respuestas[k].0) {
        return;
      }
      ValidasSnoc(respuestas, k);
      k := k + 1;
    }
  }

  /** When the answers run out, fewer valid ones were given than interfaces. */
  lemma IpsMasksAgotadas(interfaces: seq<string>, respuestas: seq<(string, string)>, i: nat)
    requires i < |interfaces| && |Validas(respuestas[..|respuestas|])| == i
    ensures |Validas(respuestas)| < |interfaces|
  {
    assert respuestas[..|respuestas|] == respuestas;
  }

  /** When every interface got its answer, those were the first valid answers. */
  lemma IpsMasksCompletas(interfaces: seq<string>, respuestas: seq<(string, string)>, usadas: nat)
    requires usadas <= |respuestas| && |Validas(respuestas[..usadas])| == |interfaces|
    ensures |Validas(respuestas)| >= |interfaces|
    ensures Validas(respuestas[..usadas]) == Validas(respuestas)[..|interfaces|]
  {
    ValidasPrefix(respuestas, usadas);
  }

  /** `ingresar_ips_masks`: for each interface in turn, answers (ip, mask) are
      read until the ip passes `es_direccion_ipv4`, and that pair is stored
      under the interface.  `completo` is false when the answers run out
      first (the program would wait for more input); `usadas` answers were read. */
  method IngresarIpsMasks(interfaces: seq<string>, respuestas: seq<(string, string)>)
    returns (completo: bool, ipsMasks: Dict<(string, string)>, usadas: nat)
    ensures usadas <= |respuestas|
    ensures completo <==> |Validas(respuestas)| >= |interfaces|
    ensures completo ==> Validas(respuestas[..usadas]) == Validas(respuestas)[..|interfaces|]
    ensures completo ==> ipsMasks == FromPairs(Zip(interfaces, Validas(respuestas[..usadas])))
  {
    ipsMasks, usadas := [], 0;
    var i := 0;
    ghost var validas: seq<(string, string)> := [];
    while i < |interfaces|
      invariant i <= |interfaces| && usadas <= |respuestas|
      invariant validas == Validas(respuestas[..usadas]) && |validas| == i
      invariant ipsMasks == FromPairs(Zip(interfaces[..i], validas))
    {
      usadas := SiguienteValida(respuestas, usadas);
      if usadas == |respuestas| {
        IpsMasksAgotadas(interfaces, respuestas, i);
        completo := false;
        return;
      }
      ValidasSnoc(respuestas, usadas);
      ZipSnoc(interfaces, i, validas, respuestas[usadas]);
      ipsMasks := Set(ipsMasks, interfaces[i], respuestas[usadas]);
      validas := validas + [respuestas[usadas]];
      usadas := usadas + 1;
      i := i + 1;
    }
    completo := true;
    IpsMasksCompletas(interfaces, respuestas, usadas);
    assert interfaces[..i] == interfaces;
  }

  /** What `ingresar_ips_masks` stores: exactly the given interfaces, each
      with an ip that passed `es_direccion_ipv4`. */
  lemma {:induction false} IpsMasksAlmacenadas(interfaces: seq<string>, valores: seq<(string, string)>)
    requires |interfaces| == |valores|
    requires forall p <- valores :: EsDireccionIpv4(p.0)
    ensures forall e <- FromPairs(Zip(interfaces, valores)) :: e.0 in interfaces && EsDireccionIpv4(e.1.0)
    ensures forall k <- interfaces :: Get(FromPairs(Zip(interfaces, valores)), k).Some?
  {
    var ps := Zip(interfaces, valores);
    forall e <- FromPairs(ps) ensures e.0 in interfaces && EsDireccionIpv4(e.1.0) {
      FromPairsEntries(ps, e);
      var j :| 0 <= j < |ps| && ps[j] == e;
    }
    forall k <- interfaces ensures Get(FromPairs(ps), k).Some? {
      FromPairsGet(ps, k);
      var j :| 0 <= j < |interfaces| && interfaces[j] == k;
      LastValueFound(ps, j);
    }
  }

  /** A key that was assigned has a last value. */
  lemma {:induction false} LastValueFound<V>(ps: seq<(string, V)>, j: nat)
    requires j < |ps|
    ensures LastValue(ps, ps[j].0).Some?
  {
    var n := |ps| - 1;
    if ps[n].0 != ps[j].0 {
      assert ps[..n][j] == ps[j];
      LastValueFound(ps[..n], j);
    }
  }

  /** The names of a list of (name, value) answers. */
  function Nombres(entradas: seq<(string, string)>): (ns: seq<string>)
    ensures |ns| == |entradas| && forall j :: 0 <= j < |entradas| ==> ns[j] == entradas[j].0
  {
    seq(|entradas|, j requires 0 <= j < |entradas| => entradas[j].0)
  }

  /** `ingresar_vlans`: (name, number) answers are assigned one by one to the
      dict until a name reads "fin"; a name given twice keeps its first place
      and its last number. */
  method IngresarVlans(entradas: seq<(string, string)>) returns (completo: bool, vlans: Dict<string>)
    ensures completo <==> HastaFin(Nombres(entradas)) < |entradas|
    ensures vlans == FromPairs(entradas[..HastaFin(Nombres(entradas))])
    ensures Wf(vlans)
  {
    vlans := [];
    var i := 0;
    while i < |entradas|
      invariant i <= |entradas|
      invariant SinFin(entradas[..i])
      invariant vlans == FromPairs(entradas[..i])
    {
      if IsFin(entradas[i].0) {
        break;
      }
      SinFinSnoc(entradas, i);
      VlansSiguiente(entradas, i);
      vlans := Set(vlans, entradas[i].0, entradas[i].1);
      i := i + 1;
    }
    SinFinHasta(entradas, i);
    completo := i < |entradas|;
  }

  /** No answer so far ended the dialog. */
  predicate SinFin(entradas: seq<(string, string)>)
  {
    entradas == [] || (!IsFin(entradas[|entradas| - 1].0) && SinFin(entradas[..|entradas| - 1]))
  }

  lemma SinFinSnoc(entradas: seq<(string, string)>, i: nat)
    requires i < |entradas| && SinFin(entradas[..i]) && !IsFin(entradas[i].0)
    ensures SinFin(entradas[..i + 1])
  {
    assert entradas[..i + 1][..i] == entradas[..i];
  }

  lemma {:induction false} SinFinTodos(entradas: seq<(string, string)>, i: nat)
    requires i <= |entradas| && SinFin(entradas[..i])
    ensures forall j :: 0 <= j < i ==> !IsFin(entradas[j].0)
  {
    if i > 0 {
      assert entradas[..i][..i - 1] == entradas[..i - 1];
      SinFinTodos(entradas, i - 1);
    }
  }

  /** The vlan loop stops where `HastaFin` says. */
  lemma SinFinHasta(entradas: seq<(string, string)>, i: nat)
    requires i <= |entradas| && SinFin(entradas[..i])
    requires i < |entradas| ==> IsFin(entradas[i].0)
    ensures HastaFin(Nombres(entradas)) == i
  {
    SinFinTodos(entradas, i);
    HastaFinEn(Nombres(entradas), i);
  }

  /** The first name that reads "fin" is where the dialog stops. */
  lemma {:induction false} HastaFinEn(nombres: seq<string>, i: nat)
    requires i <= |nombres| && forall j :: 0 <= j < i ==> !IsFin(nombres[j])
    requires i < |nombres| ==> IsFin(nombres[i])
    ensures HastaFin(nombres) == i
  {
    if i > 0 {
      HastaFinEn(nombres[1..], i - 1);
    }
  }

  lemma VlansSiguiente(entradas: seq<(string, string)>, i: nat)
    requires i < |entradas|
    ensures FromPairs(entradas[..i + 1]) == Set(FromPairs(entradas[..i]), entradas[i].0, entradas[i].1)
  {
    assert entradas[..i + 1] == entradas[..i] + [entradas[i]];
    FromPairsSnoc(entradas[..i], entradas[i]);
  }

  /** The answers of one pass of the device dialog after the name: the
      model, the layer option, the interface line, the (ip, mask) answers,
      the (name, number) VLAN answers and the service line. */
  datatype Respuestas = Respuestas(
    modelo: string,
    opcionCapa: string,
    lineaInterfaces: string,
    respuestasIp: seq<(string, string)>,
    respuestasVlan: seq<(string, string)>,
    lineaServicios: string)

  /** The device one pass of the dialog builds; `None` when the (ip, mask)
      answers or the VLAN answers run out before the dialog ends (the program
      would wait for more input). */
  function Construido(nombre: string, r: Respuestas): Option<Dispositivo>
  {
    var interfaces := Split(r.lineaInterfaces, ',');
    var validas := Validas(r.respuestasIp);
    var n := HastaFin(Nombres(r.respuestasVlan));
    if |validas| < |interfaces| || n == |r.respuestasVlan| then None
    else
      Some(Dispositivo(nombre, r.modelo, SeleccionarCapa(r.opcionCapa), interfaces,
                       FromPairs(Zip(interfaces, validas[..|interfaces|])),
                       FromPairs(r.respuestasVlan[..n]),
                       Split(r.lineaServicios, ',')))
  }

  /** What one pass of the dialog produces: the name and model as typed, the
      layer from the menu, interfaces and services split at commas; each
      interface holds the last of the first valid (ip, mask) answers given
      for it, and only listed interfaces with valid IPv4 addresses are
      stored; each VLAN holds the last number given to it before "fin". */
  lemma ConstruidoEs(nombre: string, r: Respuestas)
    ensures Construido(nombre, r).Some? <==>
            && |Validas(r.respuestasIp)| >= |Split(r.lineaInterfaces, ',')|
            && exists j :: 0 <= j < |r.respuestasVlan| && IsFin(r.respuestasVlan[j].0)
    ensures Construido(nombre, r).Some? ==>
              var d := Construido(nombre, r).value;
              var interfaces := Split(r.lineaInterfaces, ',');
              && d.nombre == nombre && d.modelo == r.modelo
              && d.capa == SeleccionarCapa(r.opcionCapa)
              && d.interfaces == interfaces
              && d.servicios == Split(r.lineaServicios, ',')
              && DispositivoValido(d)
              && (forall k <- d.interfaces :: Get(d.ipsMasks, k).Some?)
              && (forall e <- d.ipsMasks :: e.0 in d.interfaces && EsDireccionIpv4(e.1.0))
              && (forall k :: Get(d.ipsMasks, k) == LastValue(Zip(interfaces, Validas(r.respuestasIp)[..|interfaces|]), k))
              && (forall k :: Get(d.vlans, k) == LastValue(r.respuestasVlan[..HastaFin(Nombres(r.respuestasVlan))], k))
  {
    var nombres := Nombres(r.respuestasVlan);
    var n := HastaFin(nombres);
    if n < |r.respuestasVlan| {
      assert IsFin(r.respuestasVlan[n].0);
    } else {
      forall j | 0 <= j < |r.respuestasVlan| ensures !IsFin(r.respuestasVlan[j].0) {
        assert nombres[j] == r.respuestasVlan[j].0;
      }
    }
    var interfaces := Split(r.lineaInterfaces, ',');
    var validas := Validas(r.respuestasIp);
    if Construido(nombre, r).Some? {
      var ps := Zip(interfaces, validas[..|interfaces|]);
      IpsMasksAlmacenadas(interfaces, validas[..|interfaces|]);
      forall k ensures Get(FromPairs(ps), k) == LastValue(ps, k) {
        FromPairsGet(ps, k);
      }
      forall k ensures Get(FromPairs(r.respuestasVlan[..n]), k) == LastValue(r.respuestasVlan[..n], k) {
        FromPairsGet(r.respuestasVlan[..n], k);
      }
    }
  }

  /** One pass of the loop body of `agregar_dispositivos` after the name:
      model, layer menu, comma-separated interfaces, one (ip, mask) per
      interface, VLANs, comma-separated services. */
  method NuevoDispositivo(nombre: string, r: Respuestas) returns (d: Option<Dispositivo>)
    ensures d == Construido(nombre, r)
  {
    var modelo := r.modelo;
    var capa := SeleccionarCapa(r.opcionCapa);
    var interfaces := Split(r.lineaInterfaces, ',');
    var completo, ipsMasks, usadas := IngresarIpsMasks(interfaces, r.respuestasIp);
    if !completo {
      return None;
    }
    var hayFin, vlans := IngresarVlans(r.respuestasVlan);
    if !hayFin {
      return None;
    }
    var servicios := Split(r.lineaServicios, ',');
    d := Some(Dispositivo(nombre, modelo, capa, interfaces, ipsMasks, vlans, servicios));
  }

  /** The devices `agregar_dispositivos` collects: one per pass, until a
      name reads "fin"; `None` when a pass does not complete or the passes
      run out before "fin". */
  function Lote(pasadas: seq<(string, Respuestas)>): (r: Option<seq<Dispositivo>>)
    ensures r.Some? ==> forall d <- r.value :: DispositivoValido(d)
  {
    if pasadas == [] then None
    else if IsFin(pasadas[0].0) then Some([])
    else
      match (Construido(pasadas[0].0, pasadas[0].1), Lote(pasadas[1..]))
      case (Some(d), Some(resto)) =>
        ConstruidoEs(pasadas[0].0, pasadas[0].1);
        Some([d] + resto)
      case _ => None
  }

  /** The names typed at the start of each pass, in order. */
  function NombresPasadas(pasadas: seq<(string, Respuestas)>): (ns: seq<string>)
    ensures |ns| == |pasadas| && forall i :: 0 <= i < |pasadas| ==> ns[i] == pasadas[i].0
  {
    seq(|pasadas|, i requires 0 <= i < |pasadas| => pasadas[i].0)
  }

  /** The batch completes exactly when some name reads "fin" and every pass
      before the first such name builds a device.  It then holds, in order,
      the device of each of those passes. */
  lemma {:induction false} LoteEs(pasadas: seq<(string, Respuestas)>)
    ensures Lote(pasadas).Some? <==>
              && HastaFin(NombresPasadas(pasadas)) < |pasadas|
              && forall i :: 0 <= i < HastaFin(NombresPasadas(pasadas)) ==> Construido(pasadas[i].0, pasadas[i].1).Some?
    ensures Lote(pasadas).Some? ==> |Lote(pasadas).value| == HastaFin(NombresPasadas(pasadas))
    ensures Lote(pasadas).Some? ==>
              forall i :: 0 <= i < |Lote(pasadas).value| ==>
                Construido(pasadas[i].0, pasadas[i].1) == Some(Lote(pasadas).value[i])
  {
    var ns := NombresPasadas(pasadas);
    if pasadas == [] {
    } else if IsFin(pasadas[0].0) {
      assert HastaFin(ns) == 0;
    } else {
      var resto := pasadas[1..];
      LoteEs(resto);
      assert NombresPasadas(resto) == ns[1..];
      var n := HastaFin(ns[1..]);
      assert HastaFin(ns) == 1 + n;
      TodosDesplazados(pasadas, (p: (string, Respuestas)) => Construido(p.0, p.1).Some?, n);
      if Lote(pasadas).Some? {
        var d := Construido(pasadas[0].0, pasadas[0].1).value;
        assert Lote(pasadas).value == [d] + Lote(resto).value;
        forall i | 0 <= i < |Lote(pasadas).value|
          ensures Construido(pasadas[i].0, pasadas[i].1) == Some(Lote(pasadas).value[i])
        {
          if i > 0 {
            assert resto[i - 1] == pasadas[i];
          }
        }
      }
    }
  }

  /** A property holds of the first `1 + n` elements exactly when it holds of
      the first one and of the first `n` after it. */
  lemma TodosDesplazados<T>(s: seq<T>, f: T -> bool, n: nat)
    requires n < |s|
    ensures (forall i :: 0 <= i < 1 + n ==> f(s[i])) <==> f(s[0]) && forall i :: 0 <= i < n ==> f(s[1..][i])
  {
    if f(s[0]) && forall i :: 0 <= i < n ==> f(s[1..][i]) {
      forall i | 0 <= i < 1 + n ensures f(s[i]) {
        if i > 0 {
          assert s[1..][i - 1] == s[i];
        }
      }
    }
  }

  /** A campus stored under its own name is what the lookup returns. */
  lemma GetValido(inv: Inventario, k: string)
    requires InventarioValido(inv) && Get(inv, k).Some?
    ensures Get(inv, k).value.nombre == k
    ensures forall d <- Get(inv, k).value.dispositivos :: DispositivoValido(d)
  {
    var i :| 0 <= i < |inv| && inv[i] == (k, Get(inv, k).value);
  }

  /** Deleting a campus keeps the inventory valid. */
  lemma RemoveValido(inv: Inventario, k: string)
    requires InventarioValido(inv)
    ensures InventarioValido(Remove(inv, k))
  {
    var r := Remove(inv, k);
    RemoveWf(inv, k);
    forall a | 0 <= a < |r| ensures r[a].1.nombre == r[a].0 && forall d <- r[a].1.dispositivos :: DispositivoValido(d) {
      var j := RemoveEntry(inv, k, a);
    }
  }
}
