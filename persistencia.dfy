// The JSON file of `AdministradorRedes` (guardar_en_archivo / cargar_desde_archivo),
// as a tree of values: the text encoding and the file itself are not modelled.

module Persistencia {
  import opened Wrappers
  import opened Dicts
  import opened Inventario

  /** The JSON values the inventory file is made of.  An object is kept as
      written, pairs in order and duplicates allowed; reading it into a dict
      is `FromPairs`, which is what `json.load` does. */
  datatype Json = JStr(s: string) | JArr(items: seq<Json>) | JObj(fields: seq<(string, Json)>)

  // ----- One device: `dispositivo.__dict__` and `Dispositivo(**info)` -----

  /** The attribute names of a device, which are also its constructor's keywords. */
  const CAMPOS: seq<string> := ["nombre", "modelo", "capa", "interfaces", "ips_masks", "vlans", "servicios"]

  function CadenasAJson(xs: seq<string>): (js: seq<Json>)
    ensures |js| == |xs|
  {
    if xs == [] then [] else [JStr(xs[0])] + CadenasAJson(xs[1..])
  }

  /** A JSON list read as a list of strings. */
  function JsonACadenas(js: seq<Json>): (r: Option<seq<string>>)
    ensures r.Some? ==> |r.value| == |js|
  {
    if js == [] then Some([])
    else
      match (js[0], JsonACadenas(js[1..]))
      case (JStr(s), Some(resto)) => Some([s] + resto)
      case _ => None
  }

  lemma {:induction false} CadenasIdaVuelta(xs: seq<string>)
    ensures JsonACadenas(CadenasAJson(xs)) == Some(xs)
  {
    if xs != [] {
      CadenasIdaVuelta(xs[1..]);
      assert CadenasAJson(xs)[1..] == CadenasAJson(xs[1..]);
      assert xs == [xs[0]] + xs[1..];
    }
  }

  /** `ips_masks`: each (ip, mask) tuple is written as a two-element list. */
  function IpsAJson(d: Dict<(string, string)>): (fs: seq<(string, Json)>)
    ensures Keys(fs) == Keys(d)
  {
    if d == [] then [] else [(d[0].0, JArr([JStr(d[0].1.0), JStr(d[0].1.1)]))] + IpsAJson(d[1..])
  }

  function JsonAIps(fs: seq<(string, Json)>): (r: Option<Dict<(string, string)>>)
    ensures r.Some? ==> Keys(r.value) == Keys(fs)
  {
    if fs == [] then Some([])
    else
      match (fs[0].1, JsonAIps(fs[1..]))
      case (JArr(par), Some(resto)) =>
        if |par| == 2 && par[0].JStr? && par[1].JStr? then Some([(fs[0].0, (par[0].s, par[1].s))] + resto)
        else None
      case _ => None
  }

  lemma {:induction false} IpsIdaVuelta(d: Dict<(string, string)>)
    ensures JsonAIps(IpsAJson(d)) == Some(d)
  {
    if d != [] {
      IpsIdaVuelta(d[1..]);
      assert IpsAJson(d)[1..] == IpsAJson(d[1..]);
      assert d == [d[0]] + d[1..];
    }
  }

  function VlansAJson(d: Dict<string>): (fs: seq<(string, Json)>)
    ensures Keys(fs) == Keys(d)
  {
    if d == [] then [] else [(d[0].0, JStr(d[0].1))] + VlansAJson(d[1..])
  }

  function JsonAVlans(fs: seq<(string, Json)>): (r: Option<Dict<string>>)
    ensures r.Some? ==> Keys(r.value) == Keys(fs)
  {
    if fs == [] then Some([])
    else
      match (fs[0].1, JsonAVlans(fs[1..]))
      case (JStr(numero), Some(resto)) => Some([(fs[0].0, numero)] + resto)
      case _ => None
  }

  lemma {:induction false} VlansIdaVuelta(d: Dict<string>)
    ensures JsonAVlans(VlansAJson(d)) == Some(d)
  {
    if d != [] {
      VlansIdaVuelta(d[1..]);
      assert VlansAJson(d)[1..] == VlansAJson(d[1..]);
      assert d == [d[0]] + d[1..];
    }
  }

  /** Two dicts with the same keys are both real dicts or neither is. */
  lemma MismasClavesWf<V, W>(a: Dict<V>, b: Dict<W>)
    requires Keys(a) == Keys(b) && Wf(a)
    ensures Wf(b)
  {
    forall i, j | 0 <= i < j < |b| ensures b[i].0 != b[j].0 {
      assert Keys(a)[i] == Keys(b)[i] && Keys(a)[j] == Keys(b)[j];
    }
  }

  /** `dispositivo.__dict__`. */
  function DispositivoAJson(d: Dispositivo): Json
  {
    JObj([("nombre", JStr(d.nombre)), ("modelo", JStr(d.modelo)), ("capa", JStr(d.capa)),
          ("interfaces", JArr(CadenasAJson(d.interfaces))), ("ips_masks", JObj(IpsAJson(d.ipsMasks))),
          ("vlans", JObj(VlansAJson(d.vlans))), ("servicios", JArr(CadenasAJson(d.servicios)))])
  }

  function Cadena(v: Option<Json>): Option<string>
  {
    match v
    case Some(JStr(s)) => Some(s)
    case _ => None
  }

  function Cadenas(v: Option<Json>): Option<seq<string>>
  {
    match v
    case Some(JArr(js)) => JsonACadenas(js)
    case _ => None
  }

  function Ips(v: Option<Json>): (r: Option<Dict<(string, string)>>)
    ensures r.Some? ==> Wf(r.value)
  {
    match v
    case Some(JObj(fs)) =>
      var r := JsonAIps(FromPairs(fs));
      if r.Some? then MismasClavesWf(FromPairs(fs), r.value); r
      else r
    case _ => None
  }

  function Vlans(v: Option<Json>): (r: Option<Dict<string>>)
    ensures r.Some? ==> Wf(r.value)
  {
    match v
    case Some(JObj(fs)) =>
      var r := JsonAVlans(FromPairs(fs));
      if r.Some? then MismasClavesWf(FromPairs(fs), r.value); r
      else r
    case _ => None
  }

  /** `Dispositivo(**info)`: the object must carry exactly the seven keywords
      (a missing or an unexpected one is a TypeError), with the values the
      save writes. */
  function JsonADispositivo(j: Json): (r: Option<Dispositivo>)
    ensures r.Some? ==> DispositivoValido(r.value)
  {
    match j
    case JObj(fs) =>
      var m := FromPairs(fs);
      if |m| != |CAMPOS| || exists c <- CAMPOS :: Get(m, c).None? then None
      else
        (match (Cadena(Get(m, "nombre")), Cadena(Get(m, "modelo")), Cadena(Get(m, "capa")),
               Cadenas(Get(m, "interfaces")), Ips(Get(m, "ips_masks")), Vlans(Get(m, "vlans")),
               Cadenas(Get(m, "servicios")))
        case (Some(nombre), Some(modelo), Some(capa), Some(interfaces), Some(ipsMasks), Some(vlans), Some(servicios)) =>
          Some(Dispositivo(nombre, modelo, capa, interfaces, ipsMasks, vlans, servicios))
        case _ => None)
    case _ => None
  }

  /** The seven attributes of a saved device are seven distinct keys. */
  lemma CamposDistintos(d: Dispositivo)
    ensures Keys(DispositivoAJson(d).fields) == CAMPOS
    ensures Wf(DispositivoAJson(d).fields)
  {
    var fs := DispositivoAJson(d).fields;
    assert Keys(fs) == CAMPOS;
    forall i, j | 0 <= i < j < |fs| ensures fs[i].0 != fs[j].0 {
      assert fs[i].0 == CAMPOS[i] && fs[j].0 == CAMPOS[j];
      assert (|CAMPOS[i]|, CAMPOS[i][0]) != (|CAMPOS[j]|, CAMPOS[j][0]);
    }
  }

  /** Each attribute of a saved device is found under its name. */
  lemma CamposGuardados(d: Dispositivo)
    ensures FromPairs(DispositivoAJson(d).fields) == DispositivoAJson(d).fields
    ensures forall c <- CAMPOS :: Get(DispositivoAJson(d).fields, c).Some?
    ensures Get(DispositivoAJson(d).fields, "nombre") == Some(JStr(d.nombre))
    ensures Get(DispositivoAJson(d).fields, "modelo") == Some(JStr(d.modelo))
    ensures Get(DispositivoAJson(d).fields, "capa") == Some(JStr(d.capa))
    ensures Get(DispositivoAJson(d).fields, "interfaces") == Some(JArr(CadenasAJson(d.interfaces)))
    ensures Get(DispositivoAJson(d).fields, "ips_masks") == Some(JObj(IpsAJson(d.ipsMasks)))
    ensures Get(DispositivoAJson(d).fields, "vlans") == Some(JObj(VlansAJson(d.vlans)))
    ensures Get(DispositivoAJson(d).fields, "servicios") == Some(JArr(CadenasAJson(d.servicios)))
  {
    var fs := DispositivoAJson(d).fields;
    CamposDistintos(d);
    FromPairsOfWf(fs);
    GetAt(fs, 0); GetAt(fs, 1); GetAt(fs, 2); GetAt(fs, 3); GetAt(fs, 4); GetAt(fs, 5); GetAt(fs, 6);
  }

  /** The dict values of a saved device read back as themselves. */
  lemma DiccionariosIdaVuelta(d: Dispositivo)
    requires DispositivoValido(d)
    ensures Ips(Some(JObj(IpsAJson(d.ipsMasks)))) == Some(d.ipsMasks)
    ensures Vlans(Some(JObj(VlansAJson(d.vlans)))) == Some(d.vlans)
  {
    MismasClavesWf(d.ipsMasks, IpsAJson(d.ipsMasks));
    FromPairsOfWf(IpsAJson(d.ipsMasks));
    IpsIdaVuelta(d.ipsMasks);
    MismasClavesWf(d.vlans, VlansAJson(d.vlans));
    FromPairsOfWf(VlansAJson(d.vlans));
    VlansIdaVuelta(d.vlans);
  }

  /** What `Dispositivo(**info)` needs of the dict read from `info`. */
  lemma DispositivoDesde(fs: seq<(string, Json)>, d: Dispositivo)
    requires |FromPairs(fs)| == |CAMPOS| && forall c <- CAMPOS :: Get(FromPairs(fs), c).Some?
    requires Cadena(Get(FromPairs(fs), "nombre")) == Some(d.nombre)
    requires Cadena(Get(FromPairs(fs), "modelo")) == Some(d.modelo)
    requires Cadena(Get(FromPairs(fs), "capa")) == Some(d.capa)
    requires Cadenas(Get(FromPairs(fs), "interfaces")) == Some(d.interfaces)
    requires Ips(Get(FromPairs(fs), "ips_masks")) == Some(d.ipsMasks)
    requires Vlans(Get(FromPairs(fs), "vlans")) == Some(d.vlans)
    requires Cadenas(Get(FromPairs(fs), "servicios")) == Some(d.servicios)
    ensures JsonADispositivo(JObj(fs)) == Some(d)
  {
  }

  /** What the values `dispositivo.__dict__` writes read back as. */
  lemma ValoresIdaVuelta(m: Dict<Json>, d: Dispositivo)
    requires DispositivoValido(d)
    requires Get(m, "nombre") == Some(JStr(d.nombre))
    requires Get(m, "modelo") == Some(JStr(d.modelo))
    requires Get(m, "capa") == Some(JStr(d.capa))
    requires Get(m, "interfaces") == Some(JArr(CadenasAJson(d.interfaces)))
    requires Get(m, "ips_masks") == Some(JObj(IpsAJson(d.ipsMasks)))
    requires Get(m, "vlans") == Some(JObj(VlansAJson(d.vlans)))
    requires Get(m, "servicios") == Some(JArr(CadenasAJson(d.servicios)))
    ensures Cadena(Get(m, "nombre")) == Some(d.nombre)
    ensures Cadena(Get(m, "modelo")) == Some(d.modelo)
    ensures Cadena(Get(m, "capa")) == Some(d.capa)
    ensures Cadenas(Get(m, "interfaces")) == Some(d.interfaces)
    ensures Ips(Get(m, "ips_masks")) == Some(d.ipsMasks)
    ensures Vlans(Get(m, "vlans")) == Some(d.vlans)
    ensures Cadenas(Get(m, "servicios")) == Some(d.servicios)
  {
    CadenasIdaVuelta(d.interfaces);
    CadenasIdaVuelta(d.servicios);
    DiccionariosIdaVuelta(d);
  }

  /** A saved device loads back as itself. */
  lemma DispositivoIdaVuelta(d: Dispositivo)
    requires DispositivoValido(d)
    ensures JsonADispositivo(DispositivoAJson(d)) == Some(d)
  {
    var fs := DispositivoAJson(d).fields;
    CamposGuardados(d);
    CamposDistintos(d);
    ValoresIdaVuelta(fs, d);
    DispositivoDesde(fs, d);
  }

  // ----- Device lists -----

  function DispositivosAJson(ds: seq<Dispositivo>): (js: seq<Json>)
    ensures |js| == |ds|
  {
    if ds == [] then [] else [DispositivoAJson(ds[0])] + DispositivosAJson(ds[1..])
  }

  function JsonADispositivos(js: seq<Json>): (r: Option<seq<Dispositivo>>)
    ensures r.Some? ==> |r.value| == |js| && forall d <- r.value :: DispositivoValido(d)
  {
    if js == [] then Some([])
    else
      match (JsonADispositivo(js[0]), JsonADispositivos(js[1..]))
      case (Some(d), Some(resto)) => Some([d] + resto)
      case _ => None
  }

  lemma {:induction false} DispositivosIdaVuelta(ds: seq<Dispositivo>)
    requires forall d <- ds :: DispositivoValido(d)
    ensures JsonADispositivos(DispositivosAJson(ds)) == Some(ds)
  {
    if ds != [] {
      var js := DispositivosAJson(ds);
      DispositivoIdaVuelta(ds[0]);
      DispositivosIdaVuelta(ds[1..]);
      assert js[1..] == DispositivosAJson(ds[1..]);
      DispositivosPaso(js, ds);
    }
  }

  lemma DispositivosPaso(js: seq<Json>, ds: seq<Dispositivo>)
    requires |js| == |ds| > 0
    requires JsonADispositivo(js[0]) == Some(ds[0]) && JsonADispositivos(js[1..]) == Some(ds[1..])
    ensures JsonADispositivos(js) == Some(ds)
  {
    assert ds == [ds[0]] + ds[1..];
  }

  /** `for info in datos.get(nombre, [])`: no entry is an empty list; an
      object is iterated over its keys and a string over its characters, and
      `Dispositivo(**x)` fails on either, so only empty ones load. */
  function DispositivosDe(v: Option<Json>): (r: Option<seq<Dispositivo>>)
    ensures r.Some? ==> forall d <- r.value :: DispositivoValido(d)
  {
    match v
    case None => Some([])
    case Some(JArr(js)) => JsonADispositivos(js)
    case Some(JObj(fs)) => if fs == [] then Some([]) else None
    case Some(JStr(s)) => if s == "" then Some([]) else None
  }

  // ----- guardar_en_archivo -----

  /** `{"campus": {}, "dispositivos": {}}`: the second key is a placeholder
      nothing reads back. */
  const DATOS_INICIALES: Dict<Json> := [("campus", JObj([])), ("dispositivos", JObj([]))]

  /** The save loop from `datos` on, over the campus still to write: the
      description goes into the index under `datos["campus"]` and the device
      list under the campus's own name, at top level.  `None` is the
      TypeError raised when `datos["campus"]` is no longer a dict, which
      happens once a campus named "campus" has been written over it. */
  function GuardarDesde(datos: Dict<Json>, campus: Inventario): Option<Dict<Json>>
    decreases |campus|
  {
    if campus == [] then Some(datos)
    else
      match Get<Json>(datos, "campus")
      case Some(JObj(indice)) => GuardarDesde(Escribir(datos, indice, campus[0].0, campus[0].1), campus[1..])
      case _ => None
  }

  /** One pass of the save loop, with `indice` the dict under `datos["campus"]`:
      `datos["campus"][nombre] = descripcion` changes that dict in place, then
      `datos[nombre]` receives the device list. */
  function Escribir(datos: Dict<Json>, indice: Dict<Json>, nombre: string, c: Campus): Dict<Json>
  {
    Set(Set(datos, "campus", JObj(Set(indice, nombre, JStr(c.descripcion)))), nombre, JArr(DispositivosAJson(c.dispositivos)))
  }

  lemma PrefixTrans(a: seq<string>, b: seq<string>, c: seq<string>)
    requires a <= b && b <= c
    ensures a <= c
  {
    assert b[..|a|] == c[..|a|];
  }

  /** What one pass writes, and what it leaves alone. */
  lemma EscribirEs(datos: Dict<Json>, indice: Dict<Json>, nombre: string, c: Campus)
    ensures Keys(datos) <= Keys(Escribir(datos, indice, nombre, c))
    ensures Wf(datos) ==> Wf(Escribir(datos, indice, nombre, c))
    ensures Get(Escribir(datos, indice, nombre, c), nombre) == Some(JArr(DispositivosAJson(c.dispositivos)))
    ensures nombre != "campus" ==>
              Get(Escribir(datos, indice, nombre, c), "campus") == Some(JObj(Set(indice, nombre, JStr(c.descripcion))))
    ensures forall k :: k != "campus" && k != nombre ==> Get(Escribir(datos, indice, nombre, c), k) == Get(datos, k)
  {
    var v1 := JObj(Set(indice, nombre, JStr(c.descripcion)));
    var v2 := JArr(DispositivosAJson(c.dispositivos));
    var d1 := Set(datos, "campus", v1);
    SetKeysPrefix(datos, "campus", v1);
    SetKeysPrefix(d1, nombre, v2);
    PrefixTrans(Keys(datos), Keys(d1), Keys(Set(d1, nombre, v2)));
    if Wf(datos) {
      SetWf(datos, "campus", v1);
      SetWf(d1, nombre, v2);
    }
    SetGet(d1, nombre, v2);
    if nombre != "campus" {
      SetGet(datos, "campus", v1);
      SetOther(d1, nombre, v2, "campus");
    }
    forall k | k != "campus" && k != nombre
      ensures Get(Escribir(datos, indice, nombre, c), k) == Get(datos, k)
    {
      SetOther(datos, "campus", v1, k);
      SetOther(d1, nombre, v2, k);
    }
  }

  /** The document `guardar_en_archivo` writes, or `None` if it raises first. */
  function Guardar(campus: Inventario): Option<Json>
  {
    match GuardarDesde(DATOS_INICIALES, campus)
    case Some(datos) => Some(JObj(datos))
    case None => None
  }

  // ----- cargar_desde_archivo -----

  /** The load loop over the index entries still to read, adding each campus
      with its devices to `campus`.  `None` is any exception on the way. */
  function CargarDesde(datos: Dict<Json>, indice: Dict<Json>, campus: Inventario): Option<Inventario>
    decreases |indice|
  {
    if indice == [] then Some(campus)
    else
      var (nombre, descripcion) := indice[0];
      match (descripcion, DispositivosDe(Get(datos, nombre)))
      case (JStr(desc), Some(ds)) => CargarDesde(datos, indice[1..], Set(campus, nombre, Campus(nombre, desc, ds)))
      case _ => None
  }

  /** `cargar_desde_archivo` on a document, starting from the inventory
      `campus`; `None` when `json.load`'s result has no dict under "campus"
      or a device does not load. */
  function Cargar(doc: Json, campus: Inventario): Option<Inventario>
  {
    match doc
    case JObj(fs) =>
      var datos := FromPairs(fs);
      (match Get<Json>(datos, "campus")
       case Some(JObj(indice)) => CargarDesde(datos, FromPairs(indice), campus)
       case _ => None)
    case _ => None
  }

  // ----- What the save and the load promise -----

  /** The index a save writes for `campus`: each name with its description, in order. */
  function Indice(campus: Inventario): (r: Dict<Json>)
    ensures |r| == |campus|
    ensures forall i :: 0 <= i < |campus| ==> r[i] == (campus[i].0, JStr(campus[i].1.descripcion))
  {
    seq(|campus|, i requires 0 <= i < |campus| => (campus[i].0, JStr(campus[i].1.descripcion)))
  }

  /** Whatever the save writes, the keys already there keep their places,
      a real dict stays one, and keys that are neither "campus" nor a campus
      name keep their values. */
  lemma {:induction false} GuardarDesdeConserva(datos: Dict<Json>, campus: Inventario)
    requires GuardarDesde(datos, campus).Some?
    ensures Keys(datos) <= Keys(GuardarDesde(datos, campus).value)
    ensures Wf(datos) ==> Wf(GuardarDesde(datos, campus).value)
    ensures forall k :: k != "campus" && k !in Keys(campus) ==>
              Get(GuardarDesde(datos, campus).value, k) == Get(datos, k)
    decreases |campus|
  {
    if campus != [] {
      var nombre := campus[0].0;
      var indice := Get(datos, "campus").value.fields;
      var d2 := Escribir(datos, indice, nombre, campus[0].1);
      var r := GuardarDesde(d2, campus[1..]).value;
      assert GuardarDesde(datos, campus) == Some(r);
      EscribirEs(datos, indice, nombre, campus[0].1);
      GuardarDesdeConserva(d2, campus[1..]);
      PrefixTrans(Keys(datos), Keys(d2), Keys(r));
      assert Keys(campus) == [nombre] + Keys(campus[1..]);
    }
  }

  /** One more campus in the index. */
  lemma IndiceCons(indice: Dict<Json>, campus: Inventario)
    requires campus != []
    ensures (indice + [(campus[0].0, JStr(campus[0].1.descripcion))]) + Indice(campus[1..]) == indice + Indice(campus)
  {
    var a := (indice + [(campus[0].0, JStr(campus[0].1.descripcion))]) + Indice(campus[1..]);
    var b := indice + Indice(campus);
    forall i | 0 <= i < |a| ensures a[i] == b[i] {
      if i > |indice| {
        assert campus[1..][i - |indice| - 1] == campus[i - |indice|];
      }
    }
  }

  /** After one pass of the save, what the rest of the loop needs still holds. */
  lemma PasoGuardar(datos: Dict<Json>, indice: Dict<Json>, campus: Inventario)
    requires campus != []
    requires Wf(datos) && Wf(indice) && Wf(campus)
    requires Get(datos, "campus") == Some(JObj(indice))
    requires "campus" !in Keys(campus)
    requires forall k <- Keys(campus) :: k !in Keys(indice)
    ensures var indice' := indice + [(campus[0].0, JStr(campus[0].1.descripcion))];
            var d2 := Escribir(datos, indice, campus[0].0, campus[0].1);
            && Wf(d2) && Wf(indice') && Wf(campus[1..])
            && Get(d2, "campus") == Some(JObj(indice'))
            && Get(d2, campus[0].0) == Some(JArr(DispositivosAJson(campus[0].1.dispositivos)))
            && "campus" !in Keys(campus[1..]) && campus[0].0 !in Keys(campus[1..])
            && forall k <- Keys(campus[1..]) :: k !in Keys(indice')
  {
    var (nombre, c) := campus[0];
    var indice' := Set(indice, nombre, JStr(c.descripcion));
    assert Keys(campus) == [nombre] + Keys(campus[1..]);
    WfTail(campus);
    assert nombre !in Keys(indice);
    SetFresh(indice, nombre, JStr(c.descripcion));
    SetKeys(indice, nombre, JStr(c.descripcion));
    SetWf(indice, nombre, JStr(c.descripcion));
    forall k <- Keys(campus[1..]) ensures k !in Keys(indice') {
      assert k in Keys(campus);
    }
    EscribirEs(datos, indice, nombre, c);
  }

  /** The save of an inventory with no campus named "campus" succeeds: the
      index lists every campus with its description, in order, and each
      campus name holds its device list. */
  lemma {:induction false} GuardarDesdeEs(datos: Dict<Json>, indice: Dict<Json>, campus: Inventario)
    requires Wf(datos) && Wf(indice) && Wf(campus)
    requires Get(datos, "campus") == Some(JObj(indice))
    requires "campus" !in Keys(campus)
    requires forall k <- Keys(campus) :: k !in Keys(indice)
    ensures GuardarDesde(datos, campus).Some?
    ensures Get(GuardarDesde(datos, campus).value, "campus") == Some(JObj(indice + Indice(campus)))
    ensures forall i :: 0 <= i < |campus| ==>
              Get(GuardarDesde(datos, campus).value, campus[i].0) == Some(JArr(DispositivosAJson(campus[i].1.dispositivos)))
    decreases |campus|
  {
    if campus == [] {
      assert indice + Indice(campus) == indice;
    } else {
      var indice' := indice + [(campus[0].0, JStr(campus[0].1.descripcion))];
      var d2 := Escribir(datos, indice, campus[0].0, campus[0].1);
      PasoGuardar(datos, indice, campus);
      GuardarDesdeEs(d2, indice', campus[1..]);
      var r := GuardarDesde(d2, campus[1..]).value;
      assert GuardarDesde(datos, campus) == Some(r);
      GuardarDesdeConserva(d2, campus[1..]);
      IndiceCons(indice, campus);
      forall i | 0 <= i < |campus|
        ensures Get(r, campus[i].0) == Some(JArr(DispositivosAJson(campus[i].1.dispositivos)))
      {
        if i > 0 {
          assert campus[i] == campus[1..][i - 1];
        }
      }
    }
  }

  /** One pass of the load over a saved index adds the next campus at the end. */
  lemma PasoCargar(datos: Dict<Json>, inv: Inventario, n: nat)
    requires n < |inv| && Wf(inv) && inv[n].1.nombre == inv[n].0
    requires DispositivosDe(Get(datos, inv[n].0)) == Some(inv[n].1.dispositivos)
    ensures CargarDesde(datos, Indice(inv[n..]), inv[..n]) == CargarDesde(datos, Indice(inv[n + 1..]), inv[..n + 1])
  {
    var (nombre, c) := inv[n];
    WfPrefix(inv, n);
    SetFresh(inv[..n], nombre, c);
    assert inv[..n] + [(nombre, c)] == inv[..n + 1];
    assert Indice(inv[n..])[0] == (nombre, JStr(c.descripcion));
    assert Indice(inv[n..])[1..] == Indice(inv[n + 1..]);
  }

  /** The load of a saved index adds each campus, with its devices, in order. */
  lemma {:induction false} CargarDesdeEs(datos: Dict<Json>, inv: Inventario, n: nat)
    requires n <= |inv| && InventarioValido(inv)
    requires forall i :: 0 <= i < |inv| ==> DispositivosDe(Get(datos, inv[i].0)) == Some(inv[i].1.dispositivos)
    ensures CargarDesde(datos, Indice(inv[n..]), inv[..n]) == Some(inv)
    decreases |inv| - n
  {
    if n == |inv| {
      assert inv[..n] == inv;
    } else {
      PasoCargar(datos, inv, n);
      CargarDesdeEs(datos, inv, n + 1);
    }
  }

  /** Every device list the save wrote reads back as itself. */
  lemma ListasIdaVuelta(datos: Dict<Json>, inv: Inventario)
    requires InventarioValido(inv)
    requires forall i :: 0 <= i < |inv| ==>
               Get(datos, inv[i].0) == Some(JArr(DispositivosAJson(inv[i].1.dispositivos)))
    ensures forall i :: 0 <= i < |inv| ==> DispositivosDe(Get(datos, inv[i].0)) == Some(inv[i].1.dispositivos)
  {
    forall i | 0 <= i < |inv| ensures DispositivosDe(Get(datos, inv[i].0)) == Some(inv[i].1.dispositivos) {
      DispositivosIdaVuelta(inv[i].1.dispositivos);
    }
  }

  lemma InicialesWf()
    ensures Wf(DATOS_INICIALES) && Get(DATOS_INICIALES, "campus") == Some(JObj([]))
    ensures Keys(DATOS_INICIALES) == ["campus", "dispositivos"]
  {
    GetAt(DATOS_INICIALES, 0);
  }

  /** What the save of an inventory with no campus named "campus" writes:
      the index of every campus under "campus", each device list under its
      campus's name. */
  lemma GuardarEs(campus: Inventario)
    requires InventarioValido(campus) && "campus" !in Keys(campus)
    ensures Guardar(campus).Some? && Guardar(campus).value.JObj?
    ensures Wf(Guardar(campus).value.fields)
    ensures Get(Guardar(campus).value.fields, "campus") == Some(JObj(Indice(campus)))
    ensures forall i :: 0 <= i < |campus| ==>
              Get(Guardar(campus).value.fields, campus[i].0) == Some(JArr(DispositivosAJson(campus[i].1.dispositivos)))
  {
    InicialesWf();
    GuardarDesdeVacio(DATOS_INICIALES, campus);
    var r := GuardarDesde(DATOS_INICIALES, campus).value;
    assert Guardar(campus) == Some(JObj(r));
  }

  /** The save loop started from a document whose index is still empty. */
  lemma GuardarDesdeVacio(datos: Dict<Json>, campus: Inventario)
    requires InventarioValido(campus) && "campus" !in Keys(campus)
    requires Wf(datos) && Get(datos, "campus") == Some(JObj([]))
    ensures GuardarDesde(datos, campus).Some?
    ensures Wf(GuardarDesde(datos, campus).value)
    ensures Get(GuardarDesde(datos, campus).value, "campus") == Some(JObj(Indice(campus)))
    ensures forall i :: 0 <= i < |campus| ==>
              Get(GuardarDesde(datos, campus).value, campus[i].0) == Some(JArr(DispositivosAJson(campus[i].1.dispositivos)))
  {
    GuardarDesdeEs(datos, [], campus);
    GuardarDesdeConserva(datos, campus);
    assert [] + Indice(campus) == Indice(campus);
  }

  /** Loading a document laid out like that gives the inventory back. */
  lemma CargarGuardado(datos: Dict<Json>, campus: Inventario)
    requires InventarioValido(campus) && Wf(datos)
    requires Get(datos, "campus") == Some(JObj(Indice(campus)))
    requires forall i :: 0 <= i < |campus| ==> DispositivosDe(Get(datos, campus[i].0)) == Some(campus[i].1.dispositivos)
    ensures Cargar(JObj(datos), []) == Some(campus)
  {
    FromPairsOfWf(datos);
    assert Keys(Indice(campus)) == Keys(campus);
    MismasClavesWf(campus, Indice(campus));
    FromPairsOfWf(Indice(campus));
    assert campus[..0] == [] && campus[0..] == campus;
    CargarDesdeEs(datos, campus, 0);
  }

  /** Saving and loading back gives the same inventory, as long as no campus
      is named "campus". */
  lemma GuardarCargar(campus: Inventario)
    requires InventarioValido(campus) && "campus" !in Keys(campus)
    ensures Guardar(campus).Some?
    ensures Cargar(Guardar(campus).value, []) == Some(campus)
  {
    GuardarEs(campus);
    ListasIdaVuelta(Guardar(campus).value.fields, campus);
    CargarGuardado(Guardar(campus).value.fields, campus);
  }

  /** The save writes "campus" first and keeps the "dispositivos" placeholder
      second; unless a campus has that name, it stays an empty object. */
  lemma GuardarMarcador(campus: Inventario)
    requires Guardar(campus).Some?
    ensures |Guardar(campus).value.fields| >= 2
    ensures Keys(Guardar(campus).value.fields)[..2] == ["campus", "dispositivos"]
    ensures "dispositivos" !in Keys(campus) ==> Get(Guardar(campus).value.fields, "dispositivos") == Some(JObj([]))
  {
    GuardarDesdeConserva(DATOS_INICIALES, campus);
    assert Keys(DATOS_INICIALES) == ["campus", "dispositivos"];
  }

  /** Once a campus named "campus" is written, `datos["campus"]` holds its
      device list instead of the index. */
  lemma {:induction false} GuardarDesdePisado(datos: Dict<Json>, campus: Inventario)
    requires "campus" in Keys(campus) && GuardarDesde(datos, campus).Some?
    ensures Get(GuardarDesde(datos, campus).value, "campus").Some?
    ensures !Get(GuardarDesde(datos, campus).value, "campus").value.JObj?
    decreases |campus|
  {
    var indice := Get(datos, "campus").value.fields;
    var d2 := Escribir(datos, indice, campus[0].0, campus[0].1);
    EscribirEs(datos, indice, campus[0].0, campus[0].1);
    if campus[0].0 != "campus" {
      assert Keys(campus) == [campus[0].0] + Keys(campus[1..]);
      GuardarDesdePisado(d2, campus[1..]);
    }
  }

  /** A campus named "campus" does not survive: either the save raises, or
      the file it writes has a list under "campus" and the load raises. */
  lemma CampusLlamadoCampus(campus: Inventario)
    requires "campus" in Keys(campus)
    ensures Guardar(campus).None? || Cargar(Guardar(campus).value, []).None?
  {
    if Guardar(campus).Some? {
      assert Wf(DATOS_INICIALES);
      GuardarDesdeConserva(DATOS_INICIALES, campus);
      GuardarDesdePisado(DATOS_INICIALES, campus);
      FromPairsOfWf(GuardarDesde(DATOS_INICIALES, campus).value);
    }
  }

  /** Whatever document it reads, a load that succeeds leaves a valid inventory. */
  lemma {:induction false} CargarDesdeValido(datos: Dict<Json>, indice: Dict<Json>, campus: Inventario)
    requires InventarioValido(campus) && CargarDesde(datos, indice, campus).Some?
    ensures InventarioValido(CargarDesde(datos, indice, campus).value)
    decreases |indice|
  {
    if indice != [] {
      var (nombre, descripcion) := indice[0];
      var ds := DispositivosDe(Get(datos, nombre)).value;
      SetValido(campus, Campus(nombre, descripcion.s, ds));
      CargarDesdeValido(datos, indice[1..], Set(campus, nombre, Campus(nombre, descripcion.s, ds)));
    }
  }

  lemma CargarValido(doc: Json, campus: Inventario)
    requires InventarioValido(campus) && Cargar(doc, campus).Some?
    ensures InventarioValido(Cargar(doc, campus).value)
  {
    var datos := FromPairs(doc.fields);
    CargarDesdeValido(datos, FromPairs(Get(datos, "campus").value.fields), campus);
  }
}
