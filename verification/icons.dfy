/** The lucide-react-native icon components the screens draw for preset items. */
module Icons {

  datatype Icon = Key | Wallet | Glasses | Tv | Briefcase | Headphones | Umbrella | Watch | Gamepad2 | Package
}
