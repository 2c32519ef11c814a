/**
 * The text report of `AdministradorRedes.convertir_a_formato_texto`: one
 * block per campus, in the order of the campus dict, and inside it one
 * block per device, in list order.  Looking an interface up in `ips_masks`
 * raises KeyError when it has no entry; the report is then `None`.
 */
module Informe {
  import opened Wrappers
  import opened Dicts
  import opened Text
  import opened Inventario

  /** `f"- {interface}: IP: {ip}, Máscara: {mask}"`. */
  function LineaInterfaz(interfaz: string, ipMask: (string, string)): string
  {
    "- " + interfaz + ": IP: " + ipMask.0 + ", Máscara: " + ipMask.1
  }

  /** The list comprehension over `dispositivo.interfaces`; `None` is the
      KeyError of an interface without an `ips_masks` entry. */
  function LineasInterfaces(interfaces: seq<string>, ipsMasks: Dict<(string, string)>): (r: Option<seq<string>>)
    ensures r.Some? ==> |r.value| == |interfaces|
  {
    if interfaces == [] then Some([])
    else
      match (Get(ipsMasks, interfaces[0]), LineasInterfaces(interfaces[1..], ipsMasks))
      case (Some(ipMask), Some(resto)) => Some([LineaInterfaz(interfaces[0], ipMask)] + resto)
      case _ => None
  }

  /** The comprehension gets through exactly when every interface has an entry. */
  lemma {:induction false} LineasInterfacesDefinidas(interfaces: seq<string>, ipsMasks: Dict<(string, string)>)
    ensures LineasInterfaces(interfaces, ipsMasks).Some? <==> forall k <- interfaces :: Get(ipsMasks, k).Some?
  {
    if interfaces != [] {
      var resto := interfaces[1..];
      LineasInterfacesDefinidas(resto, ipsMasks);
      assert interfaces == [interfaces[0]] + resto;
      if forall k <- interfaces :: Get(ipsMasks, k).Some? {
        forall k <- resto ensures Get(ipsMasks, k).Some? {
          assert k in interfaces;
        }
      } else {
        var k :| k in interfaces && Get(ipsMasks, k).None?;
        if k != interfaces[0] {
          assert k in resto;
        }
      }
    }
  }

  /** Line `j` of the interface section is the one of the `j`-th interface,
      with the pair stored under it. */
  lemma {:induction false} LineasInterfacesEnOrden(interfaces: seq<string>, ipsMasks: Dict<(string, string)>, j: nat)
    requires LineasInterfaces(interfaces, ipsMasks).Some? && j < |interfaces|
    ensures Get(ipsMasks, interfaces[j]).Some?
    ensures LineasInterfaces(interfaces, ipsMasks).value[j]
            == LineaInterfaz(interfaces[j], Get(ipsMasks, interfaces[j]).value)
  {
    if j > 0 {
      LineasInterfacesEnOrden(interfaces[1..], ipsMasks, j - 1);
    }
  }

  /** `[f"- {vlan}: {numero}" for vlan, numero in dispositivo.vlans.items()]`. */
  function LineasVlans(vlans: Dict<string>): (r: seq<string>)
    ensures |r| == |vlans|
  {
    seq(|vlans|, j requires 0 <= j < |vlans| => "- " + vlans[j].0 + ": " + vlans[j].1)
  }

  /** Every interface of the device has its (ip, mask) entry, so the report
      can print it. */
  predicate Completo(d: Dispositivo)
  {
    forall k <- d.interfaces :: Get(d.ipsMasks, k).Some?
  }

  /** The four appends of the inner loop for one device. */
  function BloqueDispositivo(d: Dispositivo): (r: Option<string>)
    ensures r.Some? <==> Completo(d)
  {
    LineasInterfacesDefinidas(d.interfaces, d.ipsMasks);
    match LineasInterfaces(d.interfaces, d.ipsMasks)
    case None => None
    case Some(lineas) =>
      Some("\nDispositivo: " + d.nombre + "\nModelo: " + d.modelo + "\nCapa: " + d.capa + "\n"
           + ("Interfaces:\n" + Join(lineas, "\n") + "\n")
           + ("VLANs:\n" + Join(LineasVlans(d.vlans), "\n") + "\n")
           + ("Servicios: " + Join(d.servicios, ", ") + "\n" + Dashes(30) + "\n"))
  }

  /** The blocks of the devices of a list, appended in list order. */
  function Bloques(ds: seq<Dispositivo>): Option<string>
  {
    if ds == [] then Some("")
    else
      match (Bloques(ds[..|ds| - 1]), BloqueDispositivo(ds[|ds| - 1]))
      case (Some(previo), Some(bloque)) => Some(previo + bloque)
      case _ => None
  }

  /** `f"Campus: {nombre}\nDescripción: {campus.descripcion}\n"`. */
  function Cabecera(nombre: string, c: Campus): string
  {
    "Campus: " + nombre + "\nDescripción: " + c.descripcion + "\n"
  }

  /** The text of one campus: its header, then its devices. */
  function BloqueCampus(nombre: string, c: Campus): Option<string>
  {
    match Bloques(c.dispositivos)
    case Some(bloques) => Some(Cabecera(nombre, c) + bloques)
    case None => None
  }

  /** `convertir_a_formato_texto`: the campus blocks in dict order. */
  function Texto(inv: Inventario): Option<string>
  {
    if inv == [] then Some("")
    else
      match (Texto(inv[..|inv| - 1]), BloqueCampus(inv[|inv| - 1].0, inv[|inv| - 1].1))
      case (Some(previo), Some(bloque)) => Some(previo + bloque)
      case _ => None
  }

  // ----- What the report promises -----

  /** The device blocks exist exactly when every device of the list is complete. */
  lemma {:induction false} BloquesDefinidos(ds: seq<Dispositivo>)
    ensures Bloques(ds).Some? <==> forall d <- ds :: Completo(d)
  {
    if ds != [] {
      var n := |ds| - 1;
      BloquesDefinidos(ds[..n]);
      assert ds == ds[..n] + [ds[n]];
    }
  }

  /** The report raises KeyError exactly when some device of some campus has
      an interface without an (ip, mask) entry. */
  lemma {:induction false} TextoDefinido(inv: Inventario)
    ensures Texto(inv).Some? <==>
            forall i, d :: 0 <= i < |inv| && d in inv[i].1.dispositivos ==> Completo(d)
  {
    if inv != [] {
      var n := |inv| - 1;
      TextoDefinido(inv[..n]);
      BloquesDefinidos(inv[n].1.dispositivos);
      assert forall i :: 0 <= i < n ==> inv[..n][i] == inv[i];
    }
  }

  /** Campus blocks follow one another in the order of the dict: the report
      of two runs of entries is the report of the first, then of the second. */
  lemma {:induction false} TextoConcat(a: Inventario, b: Inventario)
    ensures Texto(a + b).Some? <==> Texto(a).Some? && Texto(b).Some?
    ensures Texto(a + b).Some? ==> Texto(a + b).value == Texto(a).value + Texto(b).value
  {
    if b == [] {
      assert a + b == a;
    } else {
      var n := |b| - 1;
      var ab := a + b;
      TextoConcat(a, b[..n]);
      assert ab[..|ab| - 1] == a + b[..n];
      assert ab[|ab| - 1] == b[n];
      TextoPaso(ab, a + b[..n], b[n]);
      TextoPaso(b, b[..n], b[n]);
      Asociar(Texto(a), Texto(b[..n]), BloqueCampus(b[n].0, b[n].1), Texto(a + b[..n]), Texto(b), Texto(ab));
    }
  }

  /** Appending texts that may be missing is associative. */
  lemma Asociar(x: Option<string>, y: Option<string>, z: Option<string>,
                xy: Option<string>, yz: Option<string>, xyz: Option<string>)
    requires xy == (if x.Some? && y.Some? then Some(x.value + y.value) else None)
    requires yz == (if y.Some? && z.Some? then Some(y.value + z.value) else None)
    requires xyz == (if xy.Some? && z.Some? then Some(xy.value + z.value) else None)
    ensures xyz == (if x.Some? && yz.Some? then Some(x.value + yz.value) else None)
  {
    if xyz.Some? {
      assert x.value + (y.value + z.value) == (x.value + y.value) + z.value;
    }
  }

  /** The last campus's block comes last. */
  lemma TextoPaso(inv: Inventario, previos: Inventario, ultimo: (string, Campus))
    requires inv != [] && inv[..|inv| - 1] == previos && inv[|inv| - 1] == ultimo
    ensures Texto(inv).Some? <==> Texto(previos).Some? && BloqueCampus(ultimo.0, ultimo.1).Some?
    ensures Texto(inv).Some? ==> Texto(inv).value == Texto(previos).value + BloqueCampus(ultimo.0, ultimo.1).value
  {
  }

  /** Each device block starts with the device's name, model and layer. */
  lemma BloqueDispositivoEmpieza(d: Dispositivo)
    requires Completo(d)
    ensures "\nDispositivo: " + d.nombre + "\nModelo: " + d.modelo + "\nCapa: " + d.capa + "\n"
            <= BloqueDispositivo(d).value
  {
  }

  /** A campus without devices is reported as its two header lines alone. */
  lemma CampusSinDispositivos(nombre: string, c: Campus)
    requires c.dispositivos == []
    ensures Texto([(nombre, c)]) == Some("Campus: " + nombre + "\nDescripción: " + c.descripcion + "\n")
  {
    assert [(nombre, c)][..0] == [];
    assert Bloques(c.dispositivos) == Some("");
    assert Cabecera(nombre, c) + "" == Cabecera(nombre, c);
    assert "" + Cabecera(nombre, c) == Cabecera(nombre, c);
  }

  /** A device with one interface, no VLANs and one service: the empty VLAN
      list leaves an empty line after "VLANs:". */
  lemma UnaInterfaz(nombre: string, modelo: string, capa: string, interfaz: string,
                    ip: string, mask: string, servicio: string)
    ensures BloqueDispositivo(Dispositivo(nombre, modelo, capa, [interfaz], [(interfaz, (ip, mask))], [], [servicio]))
            == Some("\nDispositivo: " + nombre + "\nModelo: " + modelo + "\nCapa: " + capa + "\n"
                    + ("Interfaces:\n" + ("- " + interfaz + ": IP: " + ip + ", Máscara: " + mask) + "\n")
                    + "VLANs:\n\n"
                    + ("Servicios: " + servicio + "\n" + Dashes(30) + "\n"))
  {
    var d := Dispositivo(nombre, modelo, capa, [interfaz], [(interfaz, (ip, mask))], [], [servicio]);
    assert [interfaz][1..] == [];
    assert Get(d.ipsMasks, interfaz) == Some((ip, mask));
    assert LineasInterfaces([], d.ipsMasks) == Some([]);
    assert [LineaInterfaz(interfaz, (ip, mask))] + [] == [LineaInterfaz(interfaz, (ip, mask))];
    assert LineasInterfaces(d.interfaces, d.ipsMasks) == Some([LineaInterfaz(interfaz, (ip, mask))]);
    assert LineasVlans([]) == [];
    assert Join([LineaInterfaz(interfaz, (ip, mask))], "\n") == LineaInterfaz(interfaz, (ip, mask));
    assert "VLANs:\n" + Join([], "\n") + "\n" == "VLANs:\n\n";
    assert Join([servicio], ", ") == servicio;
  }

  /** A router with one interface, one VLAN and two services. */
  const R1 := Dispositivo("R1", "ISR4451", NUCLEO, ["Gi0/0"], [("Gi0/0", ("10.0.0.1", "255.255.255.0"))],
                          [("MGMT", "10")], ["DHCP", "DNS"])

  /** The interface line of the router, spelled out. */
  lemma LineaInterfazR1()
    ensures LineaInterfaz("Gi0/0", ("10.0.0.1", "255.255.255.0")) == "- Gi0/0: IP: 10.0.0.1, Máscara: 255.255.255.0"
  {
  }

  /** The interface section of the router is its one interface line. */
  lemma LineaR1()
    ensures LineasInterfaces(R1.interfaces, R1.ipsMasks) == Some(["- Gi0/0: IP: 10.0.0.1, Máscara: 255.255.255.0"])
  {
    var linea := LineaInterfaz("Gi0/0", ("10.0.0.1", "255.255.255.0"));
    LineaInterfazR1();
    assert Get(R1.ipsMasks, "Gi0/0") == Some(("10.0.0.1", "255.255.255.0"));
    assert R1.interfaces[1..] == [];
    assert LineasInterfaces([], R1.ipsMasks) == Some([]);
    assert [linea] + [] == [linea];
  }

  /** The block of the router: name, model and layer, then one line per
      interface, per VLAN, and the services joined by commas. */
  lemma BloqueR1()
    ensures BloqueDispositivo(R1)
            == Some("\nDispositivo: R1\nModelo: ISR4451\nCapa: Núcleo\n"
                    + ("Interfaces:\n" + "- Gi0/0: IP: 10.0.0.1, Máscara: 255.255.255.0" + "\n")
                    + ("VLANs:\n" + "- MGMT: 10" + "\n")
                    + ("Servicios: " + "DHCP, DNS" + "\n" + Dashes(30) + "\n"))
  {
    LineaR1();
    var vlans := LineasVlans(R1.vlans);
    assert |vlans| == 1 && vlans[0] == "- MGMT: 10";
    assert vlans == ["- MGMT: 10"];
    assert Join(["DHCP", "DNS"], ", ") == "DHCP, DNS" by {
      assert ["DHCP", "DNS"][1..] == ["DNS"];
    }
    var linea := "- Gi0/0: IP: 10.0.0.1, Máscara: 255.255.255.0";
    assert Join([linea], "\n") == linea;
    assert Join(vlans, "\n") == "- MGMT: 10";
    assert "\nDispositivo: " + R1.nombre + "\nModelo: " + R1.modelo + "\nCapa: " + R1.capa + "\n"
           == "\nDispositivo: R1\nModelo: ISR4451\nCapa: Núcleo\n";
  }

  /** A one-device list is reported as that device's block. */
  lemma BloquesUno(d: Dispositivo)
    requires Completo(d)
    ensures Bloques([d]) == BloqueDispositivo(d)
  {
    assert [d][..0] == [];
    assert "" + BloqueDispositivo(d).value == BloqueDispositivo(d).value;
  }

  /** The report of one campus "HQ" holding the router: the two header
      lines, then the router's block. */
  lemma InformeHQ()
    ensures Texto([("HQ", Campus("HQ", "Main site", [R1]))])
            == Some("Campus: HQ\nDescripción: Main site\n" + BloqueDispositivo(R1).value)
    ensures BloqueDispositivo(R1).Some?
  {
    BloqueR1();
    var c := Campus("HQ", "Main site", [R1]);
    BloquesUno(R1);
    var cabecera := Cabecera("HQ", c);
    assert cabecera == "Campus: HQ\nDescripción: Main site\n";
    TextoPaso([("HQ", c)], [], ("HQ", c));
    assert "" + (cabecera + BloqueDispositivo(R1).value) == cabecera + BloqueDispositivo(R1).value;
  }
}
