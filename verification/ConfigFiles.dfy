/** Names of the generated FreeRADIUS files, and the type under which each is tracked. */
module ConfigFiles {
  import opened Substring

  function Replaced(text: string, from: char, to: char): string {
    seq(|text|, i requires 0 <= i < |text| => if text[i] == from then to else text[i])
  }

  function ConfigType(filename: string): string {
    if Contains(filename, "eap") then "eap"
    else if Contains(filename, "ldap") then "ldap"
    else if Contains(filename, "proxy") then "proxy"
    else if Contains(filename, "clients") then "clients"
    else if Contains(filename, "inner-tunnel") then "inner-tunnel"
    else if Contains(filename, "default") then "site-default"
    else if Contains(filename, "python") then "python"
    else Replaced(Replaced(filename, '/', '_'), '.', '_')
  }

  const EAP := "mods-available/eap"
  const LDAP := "mods-available/ldap_orw"
  const PYTHON := "mods-available/python"
  const PROXY := "proxy.conf"
  const CLIENTS := "clients.conf"
  const SITE_DEFAULT := "sites-available/default"
  const INNER_TUNNEL := "sites-available/inner-tunnel"

  /** The files that the generators can produce. */
  predicate Generated(filename: string) {
    filename in {EAP, LDAP, PYTHON, PROXY, CLIENTS, SITE_DEFAULT, INNER_TUNNEL}
  }

  predicate NoPair(text: string, a: char, b: char) {
    forall i :: 0 <= i < |text| - 1 ==> text[i] == a ==> text[i + 1] != b
  }

  lemma OccursPair(text: string, part: string, i: int)
    requires |part| >= 2
    ensures Occurs(text, part, i) ==> text[i] == part[0] && text[i + 1] == part[1]
  {
    assert Occurs(text, part, i) ==> text[i + 0] == part[0];
  }

  lemma Absent(text: string, part: string)
    requires |part| >= 2 && NoPair(text, part[0], part[1])
    ensures !Contains(text, part)
  {
    forall i ensures !Occurs(text, part, i) {
      OccursPair(text, part, i);
    }
  }

  lemma NoEap(name: string)
    requires Generated(name) && name != EAP
    ensures !Contains(name, "eap")
  {
    assert "eap"[0] == 'e' && "eap"[1] == 'a';
    assert NoPair(LDAP, 'e', 'a');
    assert NoPair(PYTHON, 'e', 'a');
    assert NoPair(PROXY, 'e', 'a');
    assert NoPair(CLIENTS, 'e', 'a');
    assert NoPair(SITE_DEFAULT, 'e', 'a');
    assert NoPair(INNER_TUNNEL, 'e', 'a');
    Absent(name, "eap");
  }

  lemma NoLdap(name: string)
    requires name in {PYTHON, PROXY, CLIENTS, SITE_DEFAULT, INNER_TUNNEL}
    ensures !Contains(name, "ldap")
  {
    assert "ldap"[0] == 'l' && "ldap"[1] == 'd';
    assert NoPair(PYTHON, 'l', 'd');
    assert NoPair(PROXY, 'l', 'd');
    assert NoPair(CLIENTS, 'l', 'd');
    assert NoPair(SITE_DEFAULT, 'l', 'd');
    assert NoPair(INNER_TUNNEL, 'l', 'd');
    Absent(name, "ldap");
  }

  lemma NoProxy(name: string)
    requires name in {PYTHON, CLIENTS, SITE_DEFAULT, INNER_TUNNEL}
    ensures !Contains(name, "proxy")
  {
    assert "proxy"[0] == 'p' && "proxy"[1] == 'r';
    assert NoPair(PYTHON, 'p', 'r');
    assert NoPair(CLIENTS, 'p', 'r');
    assert NoPair(SITE_DEFAULT, 'p', 'r');
    assert NoPair(INNER_TUNNEL, 'p', 'r');
    Absent(name, "proxy");
  }

  lemma NoClients(name: string)
    requires name in {PYTHON, SITE_DEFAULT, INNER_TUNNEL}
    ensures !Contains(name, "clients")
  {
    assert "clients"[0] == 'c' && "clients"[1] == 'l';
    assert NoPair(PYTHON, 'c', 'l');
    assert NoPair(SITE_DEFAULT, 'c', 'l');
    assert NoPair(INNER_TUNNEL, 'c', 'l');
    Absent(name, "clients");
  }

  lemma NoInnerTunnelOrDefault()
    ensures !Contains(PYTHON, "inner-tunnel") && !Contains(SITE_DEFAULT, "inner-tunnel") && !Contains(PYTHON, "default")
  {
    assert "inner-tunnel"[0] == 'i' && "inner-tunnel"[1] == 'n' && "default"[0] == 'd' && "default"[1] == 'e';
    assert NoPair(PYTHON, 'i', 'n');
    assert NoPair(SITE_DEFAULT, 'i', 'n');
    assert NoPair(PYTHON, 'd', 'e');
    Absent(PYTHON, "inner-tunnel");
    Absent(SITE_DEFAULT, "inner-tunnel");
    Absent(PYTHON, "default");
  }

  /** The substring tests, in their order, give each generated file its own type. */
  lemma TypesOfGeneratedFiles()
    ensures ConfigType(EAP) == "eap" && ConfigType(LDAP) == "ldap" && ConfigType(PYTHON) == "python"
    ensures ConfigType(PROXY) == "proxy" && ConfigType(CLIENTS) == "clients"
    ensures ConfigType(SITE_DEFAULT) == "site-default" && ConfigType(INNER_TUNNEL) == "inner-tunnel"
  {
    assert Occurs(EAP, "eap", 15) && Occurs(LDAP, "ldap", 15) && Occurs(PYTHON, "python", 15);
    assert Occurs(PROXY, "proxy", 0) && Occurs(CLIENTS, "clients", 0);
    assert Occurs(SITE_DEFAULT, "default", 16) && Occurs(INNER_TUNNEL, "inner-tunnel", 16);
    NoEap(LDAP); NoEap(PYTHON); NoEap(PROXY); NoEap(CLIENTS); NoEap(SITE_DEFAULT); NoEap(INNER_TUNNEL);
    NoLdap(PYTHON); NoLdap(PROXY); NoLdap(CLIENTS); NoLdap(SITE_DEFAULT); NoLdap(INNER_TUNNEL);
    NoProxy(PYTHON); NoProxy(CLIENTS); NoProxy(SITE_DEFAULT); NoProxy(INNER_TUNNEL);
    NoClients(PYTHON); NoClients(SITE_DEFAULT); NoClients(INNER_TUNNEL);
    NoInnerTunnelOrDefault();
  }

  /** No two generated files share a type, and none is tracked as the certificates. */
  lemma GeneratedTypesDistinct(first: string, second: string)
    requires Generated(first) && Generated(second)
    ensures ConfigType(first) == ConfigType(second) <==> first == second
    ensures ConfigType(first) != "certificates"
  {
    TypesOfGeneratedFiles();
    assert |"eap"| == 3 && |"ldap"| == 4 && |"python"| == 6 && |"proxy"| == 5 && |"clients"| == 7;
    assert |"site-default"| == |"certificates"| == |"inner-tunnel"| == 12;
    assert "site-default"[0] == 's' && "inner-tunnel"[0] == 'i' && "certificates"[0] == 'c';
  }
}
