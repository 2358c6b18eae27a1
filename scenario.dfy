/**
 * A client of the store that plays one short game: what a caller can
 * conclude from the store's contracts and the lemmas about the functions
 * they are stated in.
 */
module Scenario {
  import opened Wrappers
  import opened Types
  import opened GameRules
  import opened GameLogic

  /** Room ABC123 with Ana (host), Bruno and Carla, in join order. */
  function TresJogadores(): (s: Sala)
    ensures |s.jogadores| == 3 && s.status == Aguardando
  {
    var ana := NovaSala("ABC123", "Ana", "s1", "id1", 0);
    var bruno := ComJogador(ana, NovoJogador("id2", "Bruno", "s2", false));
    ComJogador(bruno, NovoJogador("id3", "Carla", "s3", false))
  }

  /** The names of the game: "ana" is Ana up to case; the others differ. */
  lemma NomesDoCenario()
    ensures MesmoNome("Ana", "ana")
    ensures !MesmoNome("Ana", "Bruno") && !MesmoNome("Ana", "Carla") && !MesmoNome("Bruno", "Carla")
  {
    assert Lower("Ana") == Lower("ana");
    assert Lower("Bruno")[0] == 'b' && Lower("Carla")[0] == 'c' && Lower("Ana")[0] == 'a';
  }

  /**
   * Ana creates room ABC123, Bruno and Carla join, and a second player
   * named "ana" is turned away because the name differs from Ana's only in
   * case.
   */
  method Entradas() returns (loja: Store, repetido: Option<Sala>)
    ensures fresh(loja) && loja.Valid() && loja.salas == map["ABC123" := TresJogadores()]
    ensures repetido == None
  {
    NomesDoCenario();
    loja := new Store();
    var a := loja.EntrarSala("ABC123", "Ana", "s1", true, "id1", 0);
    var b := loja.EntrarSala("ABC123", "Bruno", "s2", false, "id2", 1);
    assert !NomeExiste(a.value.jogadores, "Bruno");
    var c := loja.EntrarSala("ABC123", "Carla", "s3", false, "id3", 2);
    assert !NomeExiste(b.value.jogadores, "Carla") by {
      assert b.value.jogadores[0].nome == "Ana" && b.value.jogadores[1].nome == "Bruno";
    }
    repetido := loja.EntrarSala("ABC123", "ana", "s4", false, "id4", 3);
    assert NomeExiste(c.value.jogadores, "ana") by {
      assert c.value.jogadores[0].nome == "Ana";
    }
  }

  /**
   * Ana deals the first round (one spy among three), then leaves: Bruno,
   * first by join order, becomes host and the round goes on with two.
   */
  method Partida(locais: seq<string>, rndLocal: real, rndEspiao: real)
    returns (espioes: nat, novoHost: string, brunoEhHost: bool, estado: Status, restantes: nat)
    requires |locais| > 0 && 0.0 <= rndLocal < 1.0 && 0.0 <= rndEspiao < 1.0
    requires forall i :: 0 <= i < |locais| ==> locais[i] != CartaEspiao
    ensures espioes == 1 && novoHost == "Bruno" && brunoEhHost && estado == EmJogo && restantes == 2
  {
    var loja, _ := Entradas();
    var s := TresJogadores();
    assert HostComSocket(s.jogadores, "s1").Some? by {
      assert s.jogadores[0].socketId == "s1" && s.jogadores[0].isHost;
    }
    var jogo := loja.IniciarJogo("ABC123", "s1", locais, rndLocal, rndEspiao);
    UmEspiao(s, IndiceAleatorio(rndEspiao, 3), locais[IndiceAleatorio(rndLocal, |locais|)]);
    espioes := Conta(jogo.value.jogadores, EhEspiao);
    assert jogo.value.jogadores[0].socketId == "s1";
    var saida, _ := loja.SairSala("ABC123", "s1");
    novoHost := saida.value.jogadores[0].nome;
    brunoEhHost := saida.value.jogadores[0].isHost;
    estado := saida.value.status;
    restantes := |saida.value.jogadores|;
  }

  /**
   * With Ana and Bruno only, Ana cannot deal; after both leave, the room
   * can no longer be found.
   */
  method DoisJogadores(locais: seq<string>, rndLocal: real, rndEspiao: real)
    returns (jogo: Option<Sala>, salaNoFim: Option<Sala>)
    requires |locais| > 0 && 0.0 <= rndLocal < 1.0 && 0.0 <= rndEspiao < 1.0
    ensures jogo == None && salaNoFim == None
  {
    var loja := new Store();
    var a := loja.EntrarSala("XYZ", "Ana", "s1", true, "id1", 0);
    var b := loja.EntrarSala("XYZ", "Bruno", "s2", false, "id2", 1);
    NomesDoCenario();
    assert !NomeExiste(a.value.jogadores, "Bruno");
    jogo := loja.IniciarJogo("XYZ", "s1", locais, rndLocal, rndEspiao);
    var s1, _ := loja.SairSala("XYZ", "s2");
    assert b.value.jogadores[1].socketId == "s2";
    var s2, _ := loja.SairSala("XYZ", "s1");
    salaNoFim := loja.ObterSala("XYZ");
  }
}
