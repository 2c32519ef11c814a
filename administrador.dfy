/**
 * The class `AdministradorRedes` itself: the campus dict it updates in
 * place, the JSON file it saves to and loads from, and the report it
 * writes.  Console prompts are replaced by the answers given as
 * parameters; the file by the field `archivo`, the document it holds.
 */
module Administrador {
  import opened Wrappers
  import opened Dicts
  import opened Text
  import opened Inventario
  import opened Operaciones
  import opened Persistencia
  import opened Informe

  /** Two device lists that may be missing (an exception), one after the other. */
  function Anteponer(ds: seq<Dispositivo>, r: Option<seq<Dispositivo>>): Option<seq<Dispositivo>>
  {
    match r
    case Some(resto) => Some(ds + resto)
    case None => None
  }

  /** The `while True` loop of `agregar_dispositivos`: one dialog pass per
      device until a name reads "fin", each finished device appended to
      `dispositivos_nuevos`.  `None` when a pass or the passes run out of
      answers first. */
  method RecogerDispositivos(pasadas: seq<(string, Respuestas)>) returns (nuevos: Option<seq<Dispositivo>>)
    ensures nuevos == Lote(pasadas)
  {
    var lote: seq<Dispositivo> := [];
    var i := 0;
    LoteInicio(pasadas);
    while i < |pasadas|
      invariant i <= |pasadas|
      invariant Lote(pasadas) == Anteponer(lote, Lote(pasadas[i..]))
    {
      var (nombre, respuestas) := pasadas[i];
      LotePaso(pasadas, i, lote);
      if IsFin(nombre) {
        return Some(lote);
      }
      var d := NuevoDispositivo(nombre, respuestas);
      if d.None? {
        return None;
      }
      lote := lote + [d.value];
      i := i + 1;
    }
    assert pasadas[i..] == [];
    return None;
  }

  lemma LoteInicio(pasadas: seq<(string, Respuestas)>)
    ensures Lote(pasadas) == Anteponer([], Lote(pasadas[0..]))
  {
    assert pasadas[0..] == pasadas;
    if Lote(pasadas).Some? {
      assert [] + Lote(pasadas).value == Lote(pasadas).value;
    }
  }

  /** One more pass of the dialog: "fin" closes the batch, a device that
      cannot be built stops it, any other joins it. */
  lemma LotePaso(pasadas: seq<(string, Respuestas)>, i: nat, lote: seq<Dispositivo>)
    requires i < |pasadas| && Lote(pasadas) == Anteponer(lote, Lote(pasadas[i..]))
    ensures IsFin(pasadas[i].0) ==> Lote(pasadas) == Some(lote)
    ensures !IsFin(pasadas[i].0) && Construido(pasadas[i].0, pasadas[i].1).None? ==> Lote(pasadas).None?
    ensures !IsFin(pasadas[i].0) && Construido(pasadas[i].0, pasadas[i].1).Some? ==>
              Lote(pasadas) == Anteponer(lote + [Construido(pasadas[i].0, pasadas[i].1).value], Lote(pasadas[i + 1..]))
  {
    var t := pasadas[i..];
    assert t[0] == pasadas[i] && t[1..] == pasadas[i + 1..];
    LoteCons(t);
    if IsFin(pasadas[i].0) {
      assert lote + [] == lote;
    } else {
      AnteponerPaso(lote, Construido(pasadas[i].0, pasadas[i].1), Lote(pasadas[i + 1..]));
    }
  }

  lemma LoteCons(pasadas: seq<(string, Respuestas)>)
    requires pasadas != []
    ensures Lote(pasadas) == if IsFin(pasadas[0].0) then Some([])
                             else Uno(Construido(pasadas[0].0, pasadas[0].1), Lote(pasadas[1..]))
  {
  }

  class AdministradorRedes {
    /** `self.nombre_archivo`. */
    const nombreArchivo: string
    /** `self.campus`: campus name to campus, in insertion order. */
    var campus: Inventario
    /** What the file `nombreArchivo` holds: `None` while it does not exist. */
    var archivo: Option<Json>

    ghost predicate Valid()
      reads this
    {
      InventarioValido(campus)
    }

    /** `self.nombre_archivo = nombre_archivo; self.campus = {}`, with the
        file as it is on disk. */
    constructor (nombreArchivo: string, archivo: Option<Json>)
      ensures Valid() && this.nombreArchivo == nombreArchivo && this.archivo == archivo && campus == []
    {
      this.nombreArchivo := nombreArchivo;
      this.archivo := archivo;
      campus := [];
    }

    // ----- Campuses -----

    /** `agregar_campus`. */
    method AgregarCampus(nombre: string, descripcion: string)
      requires Valid()
      modifies this`campus
      ensures Valid()
      ensures campus == ConCampus(old(campus), nombre, descripcion)
    {
      ConCampusValido(campus, nombre, descripcion);
      campus := Set(campus, nombre, Campus(nombre, descripcion, []));
    }

    /** `modificar_campus`: the new description is asked for, and stored,
        only when the campus exists. */
    method ModificarCampus(nombre: string, nuevaDescripcion: string) returns (r: Resultado)
      requires Valid()
      modifies this`campus
      ensures Valid()
      ensures r == if nombre in Keys(old(campus)) then Hecho else CampusNoExiste
      ensures campus == ConDescripcion(old(campus), nombre, nuevaDescripcion)
    {
      ConDescripcionValido(campus, nombre, nuevaDescripcion);
      match Get(campus, nombre)
      case None =>
        r := CampusNoExiste;
      case Some(c) =>
        campus := Set(campus, nombre, c.(descripcion := nuevaDescripcion));
        r := Hecho;
    }

    /** `borrar_campus`. */
    method BorrarCampus(nombre: string) returns (r: Resultado)
      requires Valid()
      modifies this`campus
      ensures Valid()
      ensures r == if nombre in Keys(old(campus)) then Hecho else CampusNoExiste
      ensures campus == SinCampus(old(campus), nombre)
    {
      SinCampusValido(campus, nombre);
      if Get(campus, nombre).Some? {
        campus := Remove(campus, nombre);
        r := Hecho;
      } else {
        r := CampusNoExiste;
      }
    }

    // ----- Devices -----

    /** `agregar_dispositivos`: the batch is collected first, then appended
        with `extend`; `self.campus[nombre_campus]` raises KeyError for a
        missing campus, after the dialog, and nothing changes. */
    method AgregarDispositivos(nombreCampus: string, pasadas: seq<(string, Respuestas)>) returns (r: Resultado)
      requires Valid()
      modifies this`campus
      ensures Valid()
      ensures Lote(pasadas).None? ==> r == EntradaIncompleta && campus == old(campus)
      ensures Lote(pasadas).Some? ==>
                && r == (if nombreCampus in Keys(old(campus)) then Hecho else ErrorDeClave)
                && campus == ConDispositivos(old(campus), nombreCampus, Lote(pasadas).value)
    {
      var nuevos := RecogerDispositivos(pasadas);
      if nuevos.None? {
        return EntradaIncompleta;
      }
      ConDispositivosValido(campus, nombreCampus, nuevos.value);
      match Get(campus, nombreCampus)
      case None =>
        r := ErrorDeClave;
      case Some(c) =>
        campus := Set(campus, nombreCampus, c.(dispositivos := c.dispositivos + nuevos.value));
        r := Hecho;
    }

    /** `modificar_dispositivo`: the `for` loop looks for the first device
        called `nombreDispositivo`; on it, the dialog's answers replace the
        model, layer, interfaces, ips_masks, vlans and services. */
    method ModificarDispositivo(nombreCampus: string, nombreDispositivo: string, respuestas: Respuestas)
      returns (r: Resultado)
      requires Valid()
      modifies this`campus
      ensures Valid()
      ensures r == EntradaIncompleta ==>
                Busqueda(old(campus), nombreCampus, nombreDispositivo) == Hecho
                && Construido(nombreDispositivo, respuestas).None?
      ensures r != EntradaIncompleta ==> r == Busqueda(old(campus), nombreCampus, nombreDispositivo)
      ensures r == Hecho ==>
                Construido(nombreDispositivo, respuestas).Some? &&
                campus == ConDispositivoModificado(old(campus), nombreCampus, nombreDispositivo,
                                                   Construido(nombreDispositivo, respuestas).value)
      ensures r != Hecho ==> campus == old(campus)
    {
      var encontrado := Get(campus, nombreCampus);
      if encontrado.None? {
        return CampusNoExiste;
      }
      var c := encontrado.value;
      var ds := c.dispositivos;
      var i := BuscarPrimero(ds, nombreDispositivo);
      if i.None? {
        return DispositivoNoExiste;
      }
      var nuevo := NuevoDispositivo(nombreDispositivo, respuestas);
      if nuevo.None? {
        return EntradaIncompleta;
      }
      ConstruidoValido(nombreDispositivo, respuestas);
      ConDispositivoModificadoValido(campus, nombreCampus, nombreDispositivo, nuevo.value);
      campus := Set(campus, nombreCampus, c.(dispositivos := ds[i.value := Reasignado(ds[i.value], nuevo.value)]));
      r := Hecho;
    }

    /** `borrar_dispositivo`: the `for` loop looks for the first device
        called `nombreDispositivo` and `list.remove` drops it. */
    method BorrarDispositivo(nombreCampus: string, nombreDispositivo: string) returns (r: Resultado)
      requires Valid()
      modifies this`campus
      ensures Valid()
      ensures r == Busqueda(old(campus), nombreCampus, nombreDispositivo)
      ensures campus == SinDispositivo(old(campus), nombreCampus, nombreDispositivo)
    {
      SinDispositivoValido(campus, nombreCampus, nombreDispositivo);
      var encontrado := Get(campus, nombreCampus);
      if encontrado.None? {
        return CampusNoExiste;
      }
      var c := encontrado.value;
      var ds := c.dispositivos;
      var i := BuscarPrimero(ds, nombreDispositivo);
      if i.None? {
        return DispositivoNoExiste;
      }
      QuitarPrimeroIgualEnIndice(ds, nombreDispositivo);
      campus := Set(campus, nombreCampus, c.(dispositivos := QuitarPrimeroIgual(ds, ds[i.value])));
      r := Hecho;
    }

    // ----- The file -----

    /** `guardar_en_archivo`: the loop fills `datos` campus by campus, then
        the whole document overwrites the file.  When the loop raises (a
        campus named "campus" was written before another one) the file is
        not touched. */
    method GuardarEnArchivo() returns (ok: bool)
      modifies this`archivo
      ensures ok <==> Guardar(campus).Some?
      ensures archivo == if ok then Guardar(campus) else old(archivo)
    {
      var datos := DATOS_INICIALES;
      var i := 0;
      assert campus[0..] == campus;
      while i < |campus|
        invariant i <= |campus|
        invariant GuardarDesde(datos, campus[i..]) == GuardarDesde(DATOS_INICIALES, campus)
      {
        assert campus[i..][0] == campus[i] && campus[i..][1..] == campus[i + 1..];
        var indice := Get(datos, "campus");
        if !(indice.Some? && indice.value.JObj?) {
          return false;
        }
        datos := Escribir(datos, indice.value.fields, campus[i].0, campus[i].1);
        i := i + 1;
      }
      archivo := Some(JObj(datos));
      ok := true;
    }

    /** `cargar_desde_archivo`, run by `__init__` when the file exists: each
        campus of the index is stored, then its devices are appended to it
        one by one.  On an exception (`ok` false) the load stops where it
        was and `__init__` raises with it. */
    method CargarDesdeArchivo() returns (ok: bool)
      requires archivo.Some?
      modifies this`campus
      ensures ok <==> Cargar(archivo.value, old(campus)).Some?
      ensures ok ==> campus == Cargar(archivo.value, old(campus)).value
      ensures ok && old(Valid()) ==> Valid()
    {
      var doc := archivo.value;
      if !doc.JObj? {
        return false;
      }
      var datos := FromPairs(doc.fields);
      var entrada := Get(datos, "campus");
      if !(entrada.Some? && entrada.value.JObj?) {
        return false;
      }
      var indice := FromPairs(entrada.value.fields);
      assert indice[0..] == indice;
      var i := 0;
      while i < |indice|
        invariant i <= |indice|
        invariant CargarDesde(datos, indice, old(campus)) == CargarDesde(datos, indice[i..], campus)
      {
        assert indice[i..][0] == indice[i] && indice[i..][1..] == indice[i + 1..];
        var (nombre, descripcion) := indice[i];
        if !descripcion.JStr? {
          return false;
        }
        ghost var antes := campus;
        campus := Set(campus, nombre, Campus(nombre, descripcion.s, []));
        var ds := CargarDispositivos(Get(datos, nombre), nombre, descripcion.s, antes);
        if ds.None? {
          return false;
        }
        i := i + 1;
      }
      ok := true;
      if old(Valid()) {
        CargarValido(doc, old(campus));
      }
    }

    /** The inner loop of the load, `for dispositivo_info in
        datos.get(nombre, [])`: each device built with `Dispositivo(**info)`
        is appended to the campus already stored under `nombre`. */
    method CargarDispositivos(v: Option<Json>, nombre: string, descripcion: string, ghost antes: Inventario)
      returns (ds: Option<seq<Dispositivo>>)
      requires campus == Set(antes, nombre, Campus(nombre, descripcion, []))
      modifies this`campus
      ensures ds == DispositivosDe(v)
      ensures ds.Some? ==> campus == Set(antes, nombre, Campus(nombre, descripcion, ds.value))
    {
      match v
      case None =>
        return Some([]);
      case Some(JStr(t)) =>
        return if t == "" then Some([]) else None;
      case Some(JObj(fs)) =>
        return if fs == [] then Some([]) else None;
      case Some(JArr(js)) =>
        var lista: seq<Dispositivo> := [];
        var j := 0;
        ListaInicio(js);
        while j < |js|
          invariant j <= |js|
          invariant campus == Set(antes, nombre, Campus(nombre, descripcion, lista))
          invariant JsonADispositivos(js) == Anteponer(lista, JsonADispositivos(js[j..]))
        {
          var d := JsonADispositivo(js[j]);
          ListaPaso(js, j, lista);
          if d.None? {
            return None;
          }
          SetSet(antes, nombre, Campus(nombre, descripcion, lista), Campus(nombre, descripcion, lista + [d.value]));
          lista := lista + [d.value];
          campus := Set(campus, nombre, Campus(nombre, descripcion, lista));
          j := j + 1;
        }
        assert lista + [] == lista;
        ds := Some(lista);
    }

    // ----- The report -----

    /** `convertir_a_formato_texto`: the accumulating loop over the
        campuses, in dict order.  `None` is the KeyError of an interface
        without an (ip, mask) entry. */
    method ConvertirAFormatoTexto() returns (texto: Option<string>)
      ensures texto == Texto(campus)
    {
      var t := "";
      var i := 0;
      assert campus[..0] == [];
      while i < |campus|
        invariant i <= |campus|
        invariant Texto(campus[..i]) == Some(t)
      {
        var (nombre, c) := campus[i];
        var bloques := TextoDispositivos(c.dispositivos);
        if bloques.None? {
          InformeFalla(campus, i);
          return None;
        }
        InformeSigue(campus, i);
        t := t + (Cabecera(nombre, c) + bloques.value);
        i := i + 1;
      }
      assert campus[..i] == campus;
      texto := Some(t);
    }

    /** `guardar_en_archivo_texto`: the JSON file is saved first, then the
        report is built (and written to the text file).  `None` when either
        step raises; the JSON file is written even when the report raises. */
    method GuardarEnArchivoTexto() returns (texto: Option<string>)
      modifies this`archivo
      ensures archivo == if Guardar(campus).Some? then Guardar(campus) else old(archivo)
      ensures texto == if Guardar(campus).Some? then Texto(campus) else None
    {
      var ok := GuardarEnArchivo();
      if !ok {
        return None;
      }
      texto := ConvertirAFormatoTexto();
    }
  }

  /** `AdministradorRedes(nombre_archivo)`: an empty inventory, loaded from
      the file when it exists.  `None` when the load raises. */
  method Abrir(nombreArchivo: string, archivo: Option<Json>) returns (adm: Option<AdministradorRedes>)
    ensures adm.Some? ==> fresh(adm.value) && adm.value.Valid()
    ensures adm.Some? ==> adm.value.nombreArchivo == nombreArchivo && adm.value.archivo == archivo
    ensures archivo.None? ==> adm.Some? && adm.value.campus == []
    ensures archivo.Some? ==> (adm.Some? <==> Cargar(archivo.value, []).Some?)
    ensures archivo.Some? && adm.Some? ==> adm.value.campus == Cargar(archivo.value, []).value
  {
    var a := new AdministradorRedes(nombreArchivo, archivo);
    if archivo.Some? {
      var ok := a.CargarDesdeArchivo();
      if !ok {
        return None;
      }
    }
    adm := Some(a);
  }

  /** The `for dispositivo in campus.dispositivos: if dispositivo.nombre ==
      nombre_dispositivo` loop shared by `modificar_dispositivo` and
      `borrar_dispositivo`: the position of the first device of that name. */
  method BuscarPrimero(ds: seq<Dispositivo>, nombre: string) returns (i: Option<nat>)
    ensures i == PrimerIndice(ds, nombre)
  {
    var j := 0;
    while j < |ds|
      invariant j <= |ds|
      invariant forall k :: 0 <= k < j ==> ds[k].nombre != nombre
    {
      if ds[j].nombre == nombre {
        return Some(j);
      }
      j := j + 1;
    }
    assert forall d <- ds :: d.nombre != nombre;
    return None;
  }

  /** A device block that raises makes the whole report raise. */
  lemma InformeFalla(inv: Inventario, i: nat)
    requires i < |inv| && Bloques(inv[i].1.dispositivos).None?
    ensures Texto(inv).None?
  {
    BloquesDefinidos(inv[i].1.dispositivos);
    TextoDefinido(inv);
  }

  /** One more campus of the report: its header and device blocks follow the text so far. */
  lemma InformeSigue(inv: Inventario, i: nat)
    requires i < |inv| && Texto(inv[..i]).Some? && Bloques(inv[i].1.dispositivos).Some?
    ensures Texto(inv[..i + 1]) == Some(Texto(inv[..i]).value + (Cabecera(inv[i].0, inv[i].1) + Bloques(inv[i].1.dispositivos).value))
  {
    assert inv[..i + 1][..i] == inv[..i] && inv[..i + 1][i] == inv[i];
    TextoPaso(inv[..i + 1], inv[..i], inv[i]);
  }

  /** A device the dialog builds has real dicts. */
  lemma ConstruidoValido(nombre: string, r: Respuestas)
    requires Construido(nombre, r).Some?
    ensures DispositivoValido(Construido(nombre, r).value)
  {
    ConstruidoEs(nombre, r);
  }

  /** The inner loop of `convertir_a_formato_texto`: the blocks of the
      devices of one campus, appended in list order. */
  method TextoDispositivos(ds: seq<Dispositivo>) returns (texto: Option<string>)
    ensures texto == Bloques(ds)
  {
    var t := "";
    var j := 0;
    assert ds[..0] == [];
    while j < |ds|
      invariant j <= |ds|
      invariant Bloques(ds[..j]) == Some(t)
    {
      var bloque := BloqueDispositivo(ds[j]);
      BloquesPaso(ds, j);
      if bloque.None? {
        return None;
      }
      t := t + bloque.value;
      j := j + 1;
    }
    assert ds[..j] == ds;
    texto := Some(t);
  }

  /** One more device of the report: its block follows the ones before it,
      and a block that raises makes the campus's text raise. */
  lemma BloquesPaso(ds: seq<Dispositivo>, j: nat)
    requires j < |ds|
    ensures BloqueDispositivo(ds[j]).None? ==> Bloques(ds).None?
    ensures Bloques(ds[..j]).Some? && BloqueDispositivo(ds[j]).Some? ==>
              Bloques(ds[..j + 1]) == Some(Bloques(ds[..j]).value + BloqueDispositivo(ds[j]).value)
  {
    assert ds[..j + 1][..j] == ds[..j] && ds[..j + 1][j] == ds[j];
    if BloqueDispositivo(ds[j]).None? {
      BloquesDefinidos(ds);
      assert ds[j] in ds;
    }
  }

  /** Reading the first device of what is left of a list. */
  lemma ListaPaso(js: seq<Json>, j: nat, lista: seq<Dispositivo>)
    requires j < |js| && JsonADispositivos(js) == Anteponer(lista, JsonADispositivos(js[j..]))
    ensures JsonADispositivo(js[j]).None? ==> JsonADispositivos(js).None?
    ensures JsonADispositivo(js[j]).Some? ==>
              JsonADispositivos(js) == Anteponer(lista + [JsonADispositivo(js[j]).value], JsonADispositivos(js[j + 1..]))
  {
    var t := js[j..];
    assert t[0] == js[j] && t[1..] == js[j + 1..];
    ListaCons(t);
    AnteponerPaso(lista, JsonADispositivo(js[j]), JsonADispositivos(js[j + 1..]));
  }

  /** One device record in front of the rest. */
  lemma ListaCons(js: seq<Json>)
    requires js != []
    ensures JsonADispositivos(js) == Uno(JsonADispositivo(js[0]), JsonADispositivos(js[1..]))
  {
  }

  /** A device, if it loaded, in front of a list, if it loaded. */
  function Uno(x: Option<Dispositivo>, resto: Option<seq<Dispositivo>>): Option<seq<Dispositivo>>
  {
    if x.Some? && resto.Some? then Some([x.value] + resto.value) else None
  }

  lemma AnteponerPaso(lista: seq<Dispositivo>, x: Option<Dispositivo>, resto: Option<seq<Dispositivo>>)
    ensures x.None? ==> Anteponer(lista, Uno(x, resto)).None?
    ensures x.Some? ==> Anteponer(lista, Uno(x, resto)) == Anteponer(lista + [x.value], resto)
  {
    if x.Some? && resto.Some? {
      assert lista + ([x.value] + resto.value) == (lista + [x.value]) + resto.value;
    }
  }

  lemma ListaInicio(js: seq<Json>)
    ensures JsonADispositivos(js) == Anteponer([], JsonADispositivos(js[0..]))
  {
    assert js[0..] == js;
    if JsonADispositivos(js).Some? {
      assert [] + JsonADispositivos(js).value == JsonADispositivos(js).value;
    }
  }
}
