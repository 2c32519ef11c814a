# Administrador de Redes — a verified model of its inventory core

`AdministradorRedes` keeps an inventory of campuses. Each campus has a name, a
description and a list of network devices. Each device has a name, a model, a
hierarchical layer (Núcleo, Distribución, Acceso or Desconocida), its
interfaces, one (IP, mask) pair per interface, named VLANs and its services.
The inventory is a dict from campus name to campus, in insertion order. It is
saved to a JSON file and read back from it, and it can be exported as a text
report.

This project models that core in Dafny:

- `Dicts` models a Python insertion-ordered dict as a sequence of (key, value)
  pairs. `Set` of an existing key keeps its position, `Remove` drops it, and
  `FromPairs` is what reading a JSON object gives back.
- `Inventario` holds the device and campus records and the validity invariant
  every operation keeps. It also models the device dialog as answers given in
  advance: the layer menu, the re-prompting (ip, mask) loop and the VLAN loop
  that ends on "fin" (any casing).
- `Ipv4` gives the address check, the regular expression written out branch
  by branch, and proves it equal to "four dot-separated decimal numbers of one
  to three digits, each at most 255". It also keeps the quirk of `$`: a single
  trailing newline is accepted.
- `Operaciones` gives each edit of the inventory as a function, with the
  message it ends on (`Resultado`).
- `Administrador` holds the `AdministradorRedes` class. Its methods update
  `campus` and `archivo` in place, and each is proved against the function in
  `Operaciones`, `Persistencia` or `Informe` that states its effect. The
  loops of the source stay `while` loops with their invariants.
- `Persistencia` models saving and loading as functions between the
  inventory and a JSON tree. It proves the round trip. It also proves that
  the `"dispositivos": {}` placeholder key is written, and that a campus
  named "campus" breaks the file.
- `Informe` models the text report and proves when it raises KeyError and
  how campus blocks follow one another.

## Model

| member | source | states |
|---|---|---|
| Inventario.SeleccionarCapa | administrador_redes.py:274-280 | option "1", "2", "3" give Núcleo, Distribución, Acceso, each iff that option was chosen; every other answer gives Desconocida |
| Ipv4.EsDireccionIpv4IsDottedQuad | administrador_redes.py:52-55 | the pattern matches exactly the strings that are four dot-separated groups of 1-3 digits with value at most 255, optionally followed by one "\n" |
| Ipv4.OctetPatternIsOctet | administrador_redes.py:54 | one group of the pattern (25[0-5], 2[0-4][0-9], [01]?[0-9][0-9]?) matches exactly the 1-3 digit numbers up to 255 |
| Ipv4.AcceptsTrailingNewline | administrador_redes.py:54-55 | "1.2.3.4\n" is accepted, because `$` also matches before a final newline |
| Ipv4.AcceptsLeadingZeros | administrador_redes.py:54 | "001.02.3.4" is accepted: groups may have leading zeros |
| Ipv4.AcceptsPrivateAddress | administrador_redes.py:53-55 | "192.168.1.1" is accepted |
| Ipv4.AcceptsAllZeros | administrador_redes.py:53-55 | "0.0.0.0" is accepted |
| Ipv4.AcceptsAllOnes | administrador_redes.py:53-55 | "255.255.255.255" is accepted |
| Ipv4.RejectsOctetOver255 | administrador_redes.py:54 | "256.1.1.1" is rejected |
| Ipv4.RejectsThreeGroups | administrador_redes.py:54 | "1.2.3" is rejected |
| Ipv4.RejectsFiveGroups | administrador_redes.py:54 | "192.168.1.1.1" is rejected |
| Ipv4.RejectsLetters | administrador_redes.py:54 | "abc.def.1.1" is rejected |
| Text.JoinSplit | administrador_redes.py:236 | `str.split(",")` loses nothing: joining the pieces with the separator gives the line back |
| Text.SplitJoin | administrador_redes.py:236 | splitting a join of separator-free pieces gives the pieces back |
| Inventario.SiguienteValida | administrador_redes.py:285-292 | the re-prompt loop stops at the first answer from `desde` on whose IP is valid, or at the end of the answers; every answer skipped was invalid |
| Inventario.IngresarIpsMasks | administrador_redes.py:282-293 | the dialog completes iff there are at least as many valid answers as interfaces; then each interface, in order, gets the next valid (ip, mask) pair, a repeated interface keeping the last one |
| Inventario.IpsMasksAlmacenadas | administrador_redes.py:284-290 | the stored dict has an entry for every interface, only for those interfaces, and every stored IP passes the IPv4 check |
| Inventario.IngresarVlans | administrador_redes.py:295-303 | the dialog completes iff some VLAN name reads "fin" in any casing; the dict holds the pairs before that answer, a repeated name keeping its last number, and has one entry per name |
| Inventario.ConstruidoEs | administrador_redes.py:234-240 | one pass of the device dialog succeeds iff enough valid IPs and a closing "fin" were given; the device then has the typed name and model, the chosen layer, interfaces and services split at commas, an (ip, mask) for every interface and only for them, and the last VLAN numbers before "fin" |
| Inventario.NuevoDispositivo | administrador_redes.py:234-240 | the method builds exactly the device `Construido` describes |
| Inventario.LoteEs | administrador_redes.py:229-241 | the batch completes iff some name reads "fin" and every pass before the first such name builds a device; it then has one device per such pass, in order, each built from that pass |
| Administrador.RecogerDispositivos | administrador_redes.py:229-241 | the loop collects exactly the batch `Lote` describes |
| Inventario.PrimerIndice | administrador_redes.py:248-249 | `None` iff no device has the name; otherwise the index of the first device that has it |
| Administrador.BuscarPrimero | administrador_redes.py:248-249 | the `for` loop finds the index `PrimerIndice` gives |
| Inventario.QuitarPrimeroIgual | administrador_redes.py:267 | `list.remove` cuts out the first element equal to the given one; the others keep their order, and the multiset loses exactly that element |
| Inventario.QuitarPrimeroIgualEnIndice | administrador_redes.py:265-267 | removing the device found by the loop removes the device at that index, because no earlier device can equal it |
| Inventario.Reasignado | administrador_redes.py:250-255 | reassigning the fields keeps the device's name and takes every other field from the new answers |
| Inventario.SetValido | administrador_redes.py:176 | storing a campus under its own name keeps the inventory valid |
| Operaciones.ConCampus | administrador_redes.py:173-177 | the name now maps to a new campus with that description and no devices, even if it was there before (its devices are lost); the other campuses are untouched; a new name goes last, an old one keeps its place |
| Operaciones.ConDescripcion | administrador_redes.py:179-186 | an existing campus gets the new description and keeps its devices; a missing name changes nothing; the keys are unchanged |
| Operaciones.SinCampus | administrador_redes.py:188-194 | an existing campus is removed, one entry fewer, the others keep their values and their order; a missing name changes nothing |
| Operaciones.ConDispositivos | administrador_redes.py:242 | the batch is appended after the campus's devices, in order; nothing else changes; a missing campus changes nothing |
| Operaciones.Busqueda | administrador_redes.py:245-272 | the message is "campus does not exist" iff the campus is missing, "device does not exist" iff the campus exists but has no device with the name, and "done" iff it exists and has one; no other outcome is possible |
| Operaciones.ConDispositivoModificado | administrador_redes.py:245-260 | on success only the first device with that name in that campus is replaced, keeping its name; otherwise nothing changes |
| Operaciones.SinDispositivo | administrador_redes.py:262-272 | on success the first device with that name is cut out of that campus's list; otherwise nothing changes |
| Operaciones.BorrarDispositivoQuitaUno | administrador_redes.py:262-269 | deleting removes exactly one device from the list, one with that name, and keeps the others as a multiset |
| Operaciones.ConCampusValido | administrador_redes.py:176 | adding a campus keeps the inventory valid: one entry per name, each campus under its own name, each device's dicts well formed |
| Operaciones.ConDescripcionValido | administrador_redes.py:183 | changing a description keeps the inventory valid |
| Operaciones.SinCampusValido | administrador_redes.py:191 | deleting a campus keeps the inventory valid |
| Operaciones.ConDispositivosValido | administrador_redes.py:242 | appending valid devices keeps the inventory valid |
| Operaciones.ConDispositivoModificadoValido | administrador_redes.py:250-255 | modifying a device keeps the inventory valid |
| Operaciones.SinDispositivoValido | administrador_redes.py:267 | deleting a device keeps the inventory valid |
| Operaciones.ModificarTrasAgregar | administrador_redes.py:173-186 | adding a campus and then changing its description gives an empty campus with the new description |
| Operaciones.BorrarTrasAgregar | administrador_redes.py:173-194 | adding a new campus and then deleting it restores the inventory |
| Administrador.Abrir | administrador_redes.py:9-13 | without a file the inventory starts empty; with one, opening succeeds iff the load does, and the inventory is what was loaded |
| Administrador.AdministradorRedes.constructor | administrador_redes.py:9-11 | the file name is kept and the inventory starts empty and valid |
| Administrador.AdministradorRedes.AgregarCampus | administrador_redes.py:173-177 | the new inventory is `ConCampus` of the old one, and it stays valid |
| Administrador.AdministradorRedes.ModificarCampus | administrador_redes.py:179-186 | reports whether the campus existed; the new inventory is `ConDescripcion` of the old one |
| Administrador.AdministradorRedes.BorrarCampus | administrador_redes.py:188-194 | reports whether the campus existed; the new inventory is `SinCampus` of the old one |
| Administrador.AdministradorRedes.AgregarDispositivos | administrador_redes.py:227-243 | an unfinished dialog changes nothing; otherwise the batch is appended to the campus; a missing campus ends in the KeyError of the lookup (`ErrorDeClave`), after the dialog, with nothing changed |
| Administrador.AdministradorRedes.ModificarDispositivo | administrador_redes.py:245-260 | reports the outcome `Busqueda` gives; on success the first device with that name gets the dialog's values; otherwise nothing changes |
| Administrador.AdministradorRedes.BorrarDispositivo | administrador_redes.py:262-272 | reports the outcome `Busqueda` gives; the new inventory is `SinDispositivo` of the old one |
| Administrador.AdministradorRedes.GuardarEnArchivo | administrador_redes.py:26-32 | succeeds iff the save loop does not raise; the file then holds `Guardar(campus)`, otherwise it is untouched |
| Administrador.AdministradorRedes.CargarDesdeArchivo | administrador_redes.py:15-24 | succeeds iff `Cargar` does; the inventory then is the loaded one, and it stays valid |
| Administrador.AdministradorRedes.CargarDispositivos | administrador_redes.py:21-24 | the devices under the campus's name, or none when the key is missing, are appended one by one to the new campus |
| Administrador.AdministradorRedes.ConvertirAFormatoTexto | administrador_redes.py:41-50 | the loop builds exactly the report `Texto` describes |
| Administrador.TextoDispositivos | administrador_redes.py:45-49 | the inner loop appends exactly the device blocks `Bloques` describes |
| Administrador.AdministradorRedes.GuardarEnArchivoTexto | administrador_redes.py:34-38 | saves the file first; when the save raises, no text is written |
| Persistencia.CadenasIdaVuelta | administrador_redes.py:30 | a list of strings written to JSON reads back unchanged |
| Persistencia.IpsIdaVuelta | administrador_redes.py:30 | the `ips_masks` dict written to JSON, each pair as a two-element array, reads back unchanged |
| Persistencia.VlansIdaVuelta | administrador_redes.py:30 | the `vlans` dict written to JSON reads back unchanged |
| Persistencia.CamposGuardados | administrador_redes.py:30 | a device is written as an object with exactly its seven attributes, each holding that field |
| Persistencia.DispositivoIdaVuelta | administrador_redes.py:23 | building a device from the keywords it was saved with gives back the same device |
| Persistencia.DispositivosIdaVuelta | administrador_redes.py:22-24 | a saved device list loads back as the same list, in order |
| Persistencia.EscribirEs | administrador_redes.py:29-30 | one save pass puts the device list under the campus name and the description in the index; unless the name is "campus", nothing else changes |
| Persistencia.GuardarDesdeEs | administrador_redes.py:28-30 | with no campus named "campus", the save loop does not raise; the index lists every name with its description in order, and each name holds its device list |
| Persistencia.GuardarCargar | administrador_redes.py:15-32 | for a valid inventory with no campus named "campus", loading the saved document into an empty inventory gives back the same inventory: names, order, descriptions and devices |
| Persistencia.GuardarMarcador | administrador_redes.py:27 | a saved document starts with the keys "campus" and "dispositivos", and the second stays an empty object unless a campus has that name |
| Persistencia.CampusLlamadoCampus | administrador_redes.py:27-30 | a campus named "campus" does not survive a save and a load: the save raises, or the load of what it wrote fails |
| Persistencia.CargarValido | administrador_redes.py:15-24 | whatever document is read, a load that succeeds leaves a valid inventory |
| Persistencia.CargarDesdeEs | administrador_redes.py:18-24 | reading an index of valid entries whose device lists are present rebuilds the inventory in index order |
| Informe.LineasInterfacesDefinidas | administrador_redes.py:47 | the interface lines exist iff every interface has an `ips_masks` entry (otherwise KeyError) |
| Informe.LineasInterfacesEnOrden | administrador_redes.py:47 | line j shows interface j with the IP and mask stored for it |
| Informe.BloquesDefinidos | administrador_redes.py:45-49 | a campus's device blocks exist iff every device has an entry for each interface |
| Informe.TextoDefinido | administrador_redes.py:41-50 | the report raises iff some device of some campus lacks the entry for one of its interfaces |
| Informe.TextoConcat | administrador_redes.py:43-49 | the report of two runs of campuses is the report of the first followed by the report of the second |
| Informe.CampusSinDispositivos | administrador_redes.py:44 | a campus without devices is reported as its two header lines only |
| Informe.UnaInterfaz | administrador_redes.py:46-49 | a device with one interface, no VLANs and one service gives the exact block, with an empty line after "VLANs:" and 30 dashes at the end |
| Informe.InformeHQ | administrador_redes.py:41-50 | the report of campus HQ with router R1 is the header followed by the device block |
| Informe.BloqueR1 | administrador_redes.py:46-49 | the exact block of a router with one interface, one VLAN and two services joined by ", " |
| Informe.LineaR1 | administrador_redes.py:47 | the exact interface line "- Gi0/0: IP: 10.0.0.1, Máscara: 255.255.255.0" |

## Left out

- Menus and prompts (`menu_principal`, `administrar_campus`, `administrar_dispositivos`, `menu_restconf`): they only read answers and dispatch to the modelled operations. Answers are given to the model as parameters, and printed messages become the `Resultado` value.
- `restconf_operations.py`: calls to a device over HTTP are not part of this model.
- `campus.py` and `dispositivo.py` are not part of this model. Their constructors are taken to accept exactly the keywords the model uses, and a new campus starts with an empty device list. `Dispositivo` is taken to compare by identity or by all its fields (the default `==` is identity), so that `list.remove` in `borrar_dispositivo` cannot match an earlier device with another name; `Inventario.QuitarPrimeroIgualEnIndice` relies on this.
- The file system: whether the file exists and what it holds is the `archivo` field. The JSON text itself (encoding, `indent=4`) is not modelled, and neither are numbers, booleans or null, which the program never writes. A file that exists but is not valid JSON cannot be expressed: the parse error `json.load` raises there, which makes `__init__` fail, is not modelled.
- The text report file in `guardar_en_archivo_texto` is modelled as the returned text. Its write and the final message are left out.
- Persistencia.JsonADispositivo: a saved device whose fields have the wrong JSON type (a number for the model, say) counts as a failed load. Python would store such a value as it is; only hand-edited files can hold one.
- Persistencia.CargarDesde: a description that is not a string counts as a failed load, for the same reason.
- Persistencia.IpsIdaVuelta: after a reload Python holds each (ip, mask) as a two-element list instead of a tuple. The model keeps a pair, because the report reads both the same way.
- Inventario.Construido: when the answers run out, Python would block waiting for input. The model returns `None`, and the operation reports `EntradaIncompleta` with the inventory unchanged.
- Administrador.AdministradorRedes.ModificarDispositivo: Python reassigns the fields one at a time, so input ending midway would leave a half-updated device. The model changes nothing in that case.
- Exceptions (KeyError, TypeError, AttributeError) are modelled as results, not as control flow: `None` or `false` for the save, the load and the report, and `ErrorDeClave` for the device batch.
- Administrador.AdministradorRedes.AgregarDispositivos: for a missing campus the program stops with a KeyError at `self.campus[nombre_campus]` and prints no message. The model returns `ErrorDeClave` with the inventory unchanged and keeps running. The only caller checks the campus first, so this case is not reached from the menu.
- The alphabetical listing of campus names in `administrar_campus` only prints, so it is not modelled.
